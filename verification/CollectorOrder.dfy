/** Dedup and reordering of collectors: DedupCollectors, EnsureClusterResourcesFirst and
    EnsureCopyLast in pkg/collect/collector.go. */
module CollectorOrder {
  import opened Options

  /** A collector in a specification: its JSON text, None when it cannot be marshalled, and whether
      it collects cluster resources. id tells equal ones apart. */
  datatype Collect = Collect(id: nat, json: Option<string>, clusterResources: bool)

  /** The elements for which the test comes out so, in their order. */
  function Chosen<T(!new)>(list: seq<T>, test: T -> bool, so: bool): seq<T> {
    if list == [] then []
    else
      var front, last := list[..|list| - 1], list[|list| - 1];
      if test(last) == so then Chosen(front, test, so) + [last] else Chosen(front, test, so)
  }

  /** Those in front of the others, both in their order. */
  function Partitioned<T(!new)>(list: seq<T>, test: T -> bool, so: bool): seq<T> {
    Chosen(list, test, so) + Chosen(list, test, !so)
  }

  const IsClusterResources: Collect -> bool := (c: Collect) => c.clusterResources

  method EnsureClusterResourcesFirst(list: seq<Collect>) returns (r: seq<Collect>)
    ensures r == Partitioned(list, IsClusterResources, true)
  {
    var first, others := [], [];
    for i := 0 to |list|
      invariant first == Chosen(list[..i], IsClusterResources, true)
      invariant others == Chosen(list[..i], IsClusterResources, false)
    {
      assert list[..i + 1][..i] == list[..i];
      if list[i].clusterResources {
        first := first + [list[i]];
      } else {
        others := others + [list[i]];
      }
    }
    assert list[..|list|] == list;
    return first + others;
  }

  /** Copy collectors behind all the others. */
  method EnsureCopyLast<T(!new)>(list: seq<T>, isCopy: T -> bool) returns (r: seq<T>)
    ensures r == Partitioned(list, isCopy, false)
  {
    var others, copies := [], [];
    for i := 0 to |list|
      invariant others == Chosen(list[..i], isCopy, false)
      invariant copies == Chosen(list[..i], isCopy, true)
    {
      assert list[..i + 1][..i] == list[..i];
      if isCopy(list[i]) {
        copies := copies + [list[i]];
      } else {
        others := others + [list[i]];
      }
    }
    assert list[..|list|] == list;
    return others + copies;
  }

  /** An earlier collector of the list has the same JSON text. */
  predicate Repeats(list: seq<Collect>, c: Collect) {
    c.json.Some? && exists i :: 0 <= i < |list| && list[i].json == c.json
  }

  /** The first collector of every JSON text, and all that have none, in their order. */
  function Deduped(list: seq<Collect>): seq<Collect> {
    if list == [] then []
    else
      var front, last := list[..|list| - 1], list[|list| - 1];
      if Repeats(front, last) then Deduped(front) else Deduped(front) + [last]
  }

  method DedupCollectors(list: seq<Collect>) returns (r: seq<Collect>)
    ensures r == Deduped(list)
  {
    var unique: set<string> := {};
    r := [];
    for i := 0 to |list|
      invariant r == Deduped(list[..i])
      invariant forall text :: text in unique <==> exists j :: 0 <= j < i && list[j].json == Some(text)
    {
      assert list[..i + 1][..i] == list[..i];
      var c := list[i];
      if c.json.None? {
        r := r + [c];
      } else {
        if c.json.value !in unique {
          assert !Repeats(list[..i], c);
          unique := unique + {c.json.value};
          r := r + [c];
        } else {
          var j :| 0 <= j < i && list[j].json == c.json;
          assert list[..i][j].json == c.json;
        }
      }
    }
    assert list[..|list|] == list;
  }

  lemma {:induction false} DedupedTexts(list: seq<Collect>, c: Collect)
    ensures c in Deduped(list) ==> c in list
    ensures Repeats(Deduped(list), c) <==> Repeats(list, c)
  {
    if list != [] {
      var front, last := list[..|list| - 1], list[|list| - 1];
      DedupedTexts(front, c);
      DedupedTexts(front, last);
      RepeatsMore(front, last, c);
      RepeatsMore(Deduped(front), last, c);
      assert list == front + [last];
    }
  }

  lemma RepeatsMore(list: seq<Collect>, last: Collect, c: Collect)
    ensures Repeats(list + [last], c) <==> Repeats(list, c) || (c.json.Some? && last.json == c.json)
  {
    var more := list + [last];
    assert more[|list|] == last;
    if i :| 0 <= i < |list| && list[i].json == c.json {
      assert more[i].json == c.json;
    }
  }

  lemma DedupedMore(list: seq<Collect>, c: Collect)
    ensures Deduped(list + [c]) == if Repeats(list, c) then Deduped(list) else Deduped(list) + [c]
  {
    assert (list + [c])[..|list|] == list;
  }

  lemma ChosenMore<T(!new)>(list: seq<T>, c: T, test: T -> bool, so: bool)
    ensures Chosen(list + [c], test, so) ==
            if test(c) == so then Chosen(list, test, so) + [c] else Chosen(list, test, so)
  {
    assert (list + [c])[..|list|] == list;
  }

  lemma {:induction false} ChosenAre<T(!new)>(list: seq<T>, test: T -> bool, so: bool, c: T)
    ensures c in Chosen(list, test, so) <==> c in list && test(c) == so
  {
    if list != [] {
      var front, last := list[..|list| - 1], list[|list| - 1];
      ChosenAre(front, test, so, c);
      assert list == front + [last];
    }
  }

  /** The element at place i is kept exactly when it has no text or none before it has the same: then
      it stands behind those kept of the elements before it. */
  lemma {:induction false} FirstIsKept(list: seq<Collect>, i: nat)
    requires i < |list|
    ensures var before, upTo := Deduped(list[..i]), Deduped(list[..i + 1]);
            && before <= Deduped(list) && upTo <= Deduped(list)
            && upTo == if list[i].json.Some? && exists k :: 0 <= k < i && list[k].json == list[i].json then before
                       else before + [list[i]]
  {
    assert list[..i + 1] == list[..i] + [list[i]];
    DedupedMore(list[..i], list[i]);
    assert Repeats(list[..i], list[i]) <==>
           list[i].json.Some? && exists k :: 0 <= k < i && list[k].json == list[i].json by {
      assert forall k :: 0 <= k < i ==> list[..i][k] == list[k];
    }
    DedupedGrows(list, i);
    DedupedGrows(list, i + 1);
  }

  lemma {:induction false} DedupedGrows(list: seq<Collect>, n: nat)
    requires n <= |list|
    ensures Deduped(list[..n]) <= Deduped(list)
  {
    if n == |list| {
      assert list[..n] == list;
    } else {
      var front := list[..|list| - 1];
      assert front[..n] == list[..n];
      DedupedGrows(front, n);
    }
  }

  /** No text is left twice, none is lost, ... */
  lemma {:induction false} DedupedIsUnique(list: seq<Collect>, i: nat, j: nat)
    requires i < j < |Deduped(list)| && Deduped(list)[i].json.Some?
    ensures Deduped(list)[i].json != Deduped(list)[j].json
  {
    var front, last := list[..|list| - 1], list[|list| - 1];
    if j < |Deduped(front)| {
      DedupedIsUnique(front, i, j);
    } else {
      DedupedTexts(front, last);
      assert Deduped(front)[i] == Deduped(list)[i];
    }
  }

  /** ... and so deduping again changes nothing. */
  lemma {:induction false} DedupTwice(list: seq<Collect>)
    ensures Deduped(Deduped(list)) == Deduped(list)
  {
    if list != [] {
      var front, last := list[..|list| - 1], list[|list| - 1];
      DedupTwice(front);
      DedupedTexts(front, last);
      DedupedMore(Deduped(front), last);
    }
  }

  lemma {:induction false} ChosenSum<T(!new)>(a: seq<T>, b: seq<T>, test: T -> bool, so: bool)
    ensures Chosen(a + b, test, so) == Chosen(a, test, so) + Chosen(b, test, so)
  {
    if b == [] {
      assert a + b == a;
    } else {
      var front, last := b[..|b| - 1], b[|b| - 1];
      ChosenSum(a, front, test, so);
      ChosenMore(a + front, last, test, so);
      assert a + b == a + front + [last];
      ChosenMore(front, last, test, so);
      assert b == front + [last];
    }
  }

  lemma {:induction false} ChosenAgain<T(!new)>(list: seq<T>, test: T -> bool, so: bool, again: bool)
    ensures Chosen(Chosen(list, test, so), test, again) == if so == again then Chosen(list, test, so) else []
  {
    if list != [] {
      var front, last := list[..|list| - 1], list[|list| - 1];
      ChosenAgain(front, test, so, again);
      ChosenMore(Chosen(front, test, so), last, test, again);
    }
  }

  /** Reordering again changes nothing: of both reorderings. */
  lemma PartitionTwice<T(!new)>(list: seq<T>, test: T -> bool, so: bool)
    ensures Partitioned(Partitioned(list, test, so), test, so) == Partitioned(list, test, so)
  {
    ChosenFromPartition(list, test, so, so);
    ChosenFromPartition(list, test, so, !so);
  }

  lemma ChosenFromPartition<T(!new)>(list: seq<T>, test: T -> bool, so: bool, again: bool)
    ensures Chosen(Partitioned(list, test, so), test, again) == Chosen(list, test, again)
  {
    ChosenSum(Chosen(list, test, so), Chosen(list, test, !so), test, again);
    ChosenAgain(list, test, so, again);
    ChosenAgain(list, test, !so, again);
  }

  /** Those for which the test comes out so stand in front: cluster resources, and all but copies. */
  lemma ChosenStandInFront<T(!new)>(list: seq<T>, test: T -> bool, so: bool, i: nat, j: nat)
    requires i < j < |Partitioned(list, test, so)| && test(Partitioned(list, test, so)[j]) == so
    ensures test(Partitioned(list, test, so)[i]) == so
  {
    var front, back := Chosen(list, test, so), Chosen(list, test, !so);
    forall k | 0 <= k < |back|
      ensures test(back[k]) != so
    {
      ChosenAre(list, test, !so, back[k]);
    }
    assert j < |front|;
    ChosenAre(list, test, so, front[i]);
  }

  /** And each group keeps its order: of two lists behind each other, each group of the first stands in
      front of that of the second. */
  lemma GroupsKeepOrder<T(!new)>(a: seq<T>, b: seq<T>, test: T -> bool, so: bool)
    ensures Partitioned(a + b, test, so) ==
            Chosen(a, test, so) + Chosen(b, test, so) + (Chosen(a, test, !so) + Chosen(b, test, !so))
    ensures a != [] ==> Chosen([a[0]], test, so) == if test(a[0]) == so then [a[0]] else []
  {
    ChosenSum(a, b, test, so);
    ChosenSum(a, b, test, !so);
    if a != [] {
      ChosenMore([], a[0], test, so);
      assert [] + [a[0]] == [a[0]];
    }
  }

  /** Reordering loses and duplicates nothing. */
  lemma {:induction false} PartitionKeeps<T(!new)>(list: seq<T>, test: T -> bool, so: bool)
    ensures multiset(Partitioned(list, test, so)) == multiset(list)
  {
    if list != [] {
      var front, last := list[..|list| - 1], list[|list| - 1];
      PartitionKeeps(front, test, so);
      assert list == front + [last];
    }
  }

  /** Collectors with the same JSON text test alike: the text names the kind of collector. */
  ghost predicate TextDecides(list: seq<Collect>, test: Collect -> bool) {
    forall i, j :: 0 <= i < |list| && 0 <= j < |list| && list[i].json.Some? && list[i].json == list[j].json ==>
      test(list[i]) == test(list[j])
  }

  lemma {:induction false} DedupOfChosen(list: seq<Collect>, test: Collect -> bool, so: bool)
    requires TextDecides(list, test)
    ensures Deduped(Chosen(list, test, so)) == Chosen(Deduped(list), test, so)
  {
    if list != [] {
      var front, last := list[..|list| - 1], list[|list| - 1];
      assert forall i :: 0 <= i < |front| ==> front[i] == list[i];
      DedupOfChosen(front, test, so);
      DedupedMore(Chosen(front, test, so), last);
      ChosenMore(Deduped(front), last, test, so);
      if test(last) == so {
        SameRepeats(front, last, test, so);
      }
    }
  }

  lemma SameRepeats(list: seq<Collect>, c: Collect, test: Collect -> bool, so: bool)
    requires forall i :: 0 <= i < |list| && list[i].json.Some? && list[i].json == c.json ==> test(list[i]) == so
    ensures Repeats(Chosen(list, test, so), c) <==> Repeats(list, c)
  {
    var chosen := Chosen(list, test, so);
    if Repeats(list, c) {
      var i :| 0 <= i < |list| && list[i].json == c.json;
      ChosenAre(list, test, so, list[i]);
      assert list[i] in chosen;
    }
    if Repeats(chosen, c) {
      var i :| 0 <= i < |chosen| && chosen[i].json == c.json;
      ChosenAre(list, test, so, chosen[i]);
      assert chosen[i] in list;
    }
  }

  /** Deduping and moving cluster resources first can be done in either order. */
  lemma DedupCommutesWithReordering(list: seq<Collect>, test: Collect -> bool, so: bool)
    requires TextDecides(list, test)
    ensures Deduped(Partitioned(list, test, so)) == Partitioned(Deduped(list), test, so)
  {
    var chosen, others := Chosen(list, test, so), Chosen(list, test, !so);
    DedupOfChosen(list, test, so);
    DedupOfChosen(list, test, !so);
    forall i, j | 0 <= i < |chosen| && 0 <= j < |others|
      ensures chosen[i].json.None? || chosen[i].json != others[j].json
    {
      ChosenAre(list, test, so, chosen[i]);
      ChosenAre(list, test, !so, others[j]);
      assert chosen[i] in list && others[j] in list;
    }
    DedupOfSum(chosen, others);
  }

  lemma {:induction false} DedupOfSum(a: seq<Collect>, b: seq<Collect>)
    requires forall i, j :: 0 <= i < |a| && 0 <= j < |b| ==> a[i].json.None? || a[i].json != b[j].json
    ensures Deduped(a + b) == Deduped(a) + Deduped(b)
  {
    if b == [] {
      assert a + b == a;
    } else {
      var front, last := b[..|b| - 1], b[|b| - 1];
      assert forall j :: 0 <= j < |front| ==> front[j] == b[j];
      DedupOfSum(a, front);
      DedupedMore(a + front, last);
      assert a + b == a + front + [last];
      RepeatsInSum(a, front, last);
      if Repeats(front, last) {
        assert Deduped(b) == Deduped(front);
      } else {
        assert Deduped(a) + (Deduped(front) + [last]) == Deduped(a) + Deduped(front) + [last];
      }
    }
  }

  lemma RepeatsInSum(a: seq<Collect>, b: seq<Collect>, c: Collect)
    requires forall i :: 0 <= i < |a| ==> a[i].json.None? || a[i].json != c.json
    ensures Repeats(a + b, c) <==> Repeats(b, c)
  {
    if i :| 0 <= i < |b| && b[i].json == c.json {
      assert (a + b)[|a| + i].json == c.json;
    }
  }
}
