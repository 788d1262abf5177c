/** One label selector split into several, over slices that share their backing array:
    SplitTroubleshootSecretLabelSelector in internal/specs/specs.go. */
module SelectorSplit {

  type Labels = map<string, string>

  datatype Operator = In(values: set<string>) | NotIn(values: set<string>) | Exists | DoesNotExist

  datatype Requirement = Requirement(key: string, op: Operator)

  predicate Meets(r: Requirement, labels: Labels) {
    match r.op
    case In(values) => r.key in labels && labels[r.key] in values
    case NotIn(values) => r.key in labels ==> labels[r.key] !in values
    case Exists => r.key in labels
    case DoesNotExist => r.key !in labels
  }

  predicate Matches(reqs: seq<Requirement>, labels: Labels) {
    forall i :: 0 <= i < |reqs| ==> Meets(reqs[i], labels)
  }

  /** A selector that matches nothing is not selectable. */
  datatype Selector = MatchesNothing | Selector(reqs: seq<Requirement>)

  datatype Outcome = Selectors(selectors: seq<seq<Requirement>>) | NotSelectable

  predicate IsTroubleshoot(r: Requirement) {
    r.key == "troubleshoot.io/kind" || r.key == "troubleshoot.sh/kind"
  }

  /** The troubleshoot requirements, or the other ones, in their order. */
  function Sift(reqs: seq<Requirement>, troubleshoot: bool): (sifted: seq<Requirement>)
    ensures forall i :: 0 <= i < |sifted| ==> IsTroubleshoot(sifted[i]) == troubleshoot
  {
    if reqs == [] then []
    else Sift(reqs[..|reqs| - 1], troubleshoot) +
         if IsTroubleshoot(reqs[|reqs| - 1]) == troubleshoot then [reqs[|reqs| - 1]] else []
  }

  /** The requirements of every selector that the split gives. */
  function Parts(others: seq<Requirement>, troubleshoot: seq<Requirement>): seq<seq<Requirement>> {
    if troubleshoot == [] then []
    else Parts(others, troubleshoot[..|troubleshoot| - 1]) + [others + [troubleshoot[|troubleshoot| - 1]]]
  }

  function SplitOf(reqs: seq<Requirement>): seq<seq<Requirement>> {
    if Sift(reqs, true) == [] && reqs != [] then [reqs] else Parts(Sift(reqs, false), Sift(reqs, true))
  }

  /** The two keys that are split apart are troubleshoot.io/kind and troubleshoot.sh/kind. */
  lemma TwoKeysAreSplit(io: Operator, sh: Operator, other: Requirement)
    requires other.key != "troubleshoot.io/kind" && other.key != "troubleshoot.sh/kind"
    ensures var r, r' := Requirement("troubleshoot.io/kind", io), Requirement("troubleshoot.sh/kind", sh);
            SplitOf([r, r', other]) == [[other] + [r], [other] + [r']] && SplitOf([other]) == [[other]]
  {
    var r, r' := Requirement("troubleshoot.io/kind", io), Requirement("troubleshoot.sh/kind", sh);
    SiftThree(r, r', other, true);
    SiftThree(r, r', other, false);
    SiftMore([], other, true);
    SiftMore([], other, false);
    assert [] + [other] == [other];
    OnePart([other], r);
    TwoParts([other], r, r');
  }

  lemma SiftThree(r: Requirement, r': Requirement, other: Requirement, so: bool)
    requires IsTroubleshoot(r) && IsTroubleshoot(r') && !IsTroubleshoot(other)
    ensures Sift([r, r', other], so) == if so then [r, r'] else [other]
  {
    SiftMore([], r, so);
    SiftMore([r], r', so);
    SiftMore([r, r'], other, so);
    assert [] + [r] == [r] && [r] + [r'] == [r, r'] && [r, r'] + [other] == [r, r', other];
  }

  lemma TwoParts(others: seq<Requirement>, r: Requirement, r': Requirement)
    ensures Parts(others, [r, r']) == [others + [r], others + [r']]
  {
    OnePart(others, r);
    assert [r, r'][..1] == [r];
  }

  /** How the operators relate: two pairs of opposites, and a value in a set is a value. */
  lemma OperatorsRelate(key: string, values: set<string>, labels: Labels)
    ensures Meets(Requirement(key, In(values)), labels) <==> !Meets(Requirement(key, NotIn(values)), labels)
    ensures Meets(Requirement(key, Exists), labels) <==> !Meets(Requirement(key, DoesNotExist), labels)
    ensures Meets(Requirement(key, In(values)), labels) ==> Meets(Requirement(key, Exists), labels)
    ensures key in labels ==> (Meets(Requirement(key, In(values)), labels) <==> labels[key] in values)
    ensures Meets(Requirement(key, Exists), labels) <==> key in labels
  {
  }

  /** Some of the selectors matches. */
  predicate Selected(selectors: seq<seq<Requirement>>, labels: Labels) {
    exists i :: 0 <= i < |selectors| && Matches(selectors[i], labels)
  }

  /** How many of the selectors match: how often LoadFromCluster finds the object. */
  function TimesFound(selectors: seq<seq<Requirement>>, labels: Labels): nat {
    if selectors == [] then 0
    else TimesFound(selectors[..|selectors| - 1], labels) + if Matches(selectors[|selectors| - 1], labels) then 1 else 0
  }

  function TimesMet(reqs: seq<Requirement>, labels: Labels): (n: nat)
    ensures n > 0 <==> exists i :: 0 <= i < |reqs| && Meets(reqs[i], labels)
  {
    if reqs == [] then 0
    else TimesMet(reqs[..|reqs| - 1], labels) + if Meets(reqs[|reqs| - 1], labels) then 1 else 0
  }

  lemma {:induction false} SiftedMatch(reqs: seq<Requirement>, labels: Labels)
    ensures Matches(reqs, labels) <==> Matches(Sift(reqs, false), labels) && Matches(Sift(reqs, true), labels)
  {
    if reqs != [] {
      var front, last := reqs[..|reqs| - 1], reqs[|reqs| - 1];
      SiftedMatch(front, labels);
      MatchesMore(front, last, labels);
      MatchesMore(Sift(front, false), last, labels);
      MatchesMore(Sift(front, true), last, labels);
      assert reqs == front + [last];
      assert Sift(front, false) + [] == Sift(front, false) && Sift(front, true) + [] == Sift(front, true);
    }
  }

  lemma MatchesMore(reqs: seq<Requirement>, r: Requirement, labels: Labels)
    ensures Matches(reqs + [r], labels) <==> Matches(reqs, labels) && Meets(r, labels)
  {
    var more := reqs + [r];
    assert more[|reqs|] == r;
    forall i | 0 <= i < |reqs|
      ensures more[i] == reqs[i]
    {
    }
  }

  lemma {:induction false} TimesPartsFound(others: seq<Requirement>, troubleshoot: seq<Requirement>, labels: Labels)
    ensures TimesFound(Parts(others, troubleshoot), labels) ==
            if Matches(others, labels) then TimesMet(troubleshoot, labels) else 0
  {
    if troubleshoot != [] {
      var front, last := troubleshoot[..|troubleshoot| - 1], troubleshoot[|troubleshoot| - 1];
      TimesPartsFound(others, front, labels);
      MatchesMore(others, last, labels);
      var parts := Parts(others, troubleshoot);
      assert parts[..|parts| - 1] == Parts(others, front);
    }
  }

  lemma {:induction false} FoundIffSelected(selectors: seq<seq<Requirement>>, labels: Labels)
    ensures TimesFound(selectors, labels) > 0 <==> Selected(selectors, labels)
  {
    if selectors != [] {
      var front, last := selectors[..|selectors| - 1], selectors[|selectors| - 1];
      FoundIffSelected(front, labels);
      if Selected(front, labels) {
        var i :| 0 <= i < |front| && Matches(front[i], labels);
        assert Matches(selectors[i], labels);
      }
      if Matches(last, labels) {
        assert Matches(selectors[|selectors| - 1], labels);
      }
      if Selected(selectors, labels) && !Matches(last, labels) {
        var i :| 0 <= i < |selectors| && Matches(selectors[i], labels);
        assert front[i] == selectors[i];
      }
    }
  }

  /** The selectors together select what meets every other requirement and at least one troubleshoot
      requirement, if there is one; and an object is found once for each that it meets. */
  lemma SplitSelects(reqs: seq<Requirement>, labels: Labels)
    ensures Sift(reqs, true) != [] ==>
              TimesFound(SplitOf(reqs), labels) ==
              if Matches(Sift(reqs, false), labels) then TimesMet(Sift(reqs, true), labels) else 0
    ensures Sift(reqs, true) != [] ==>
              (Selected(SplitOf(reqs), labels) <==>
               (Matches(Sift(reqs, false), labels)
                && exists i :: 0 <= i < |Sift(reqs, true)| && Meets(Sift(reqs, true)[i], labels)))
    ensures Sift(reqs, true) == [] ==> (Selected(SplitOf(reqs), labels) <==> (reqs != [] && Matches(reqs, labels)))
  {
    if Sift(reqs, true) != [] {
      TimesPartsFound(Sift(reqs, false), Sift(reqs, true), labels);
      FoundIffSelected(SplitOf(reqs), labels);
    } else if reqs != [] {
      assert SplitOf(reqs) == [reqs];
      assert Matches(reqs, labels) ==> Matches(SplitOf(reqs)[0], labels);
    } else {
      assert SplitOf(reqs) == [];
    }
  }

  /** Nothing that the selector matched is lost by splitting it, except by splitting the selector
      without requirements: that one matches everything, its split nothing. */
  lemma NothingIsLostIff(reqs: seq<Requirement>)
    ensures (forall labels :: Matches(reqs, labels) ==> Selected(SplitOf(reqs), labels)) <==> reqs != []
  {
    if reqs == [] {
      var none: Labels := map[];
      SplitSelects(reqs, none);
      assert Matches(reqs, none) && !Selected(SplitOf(reqs), none);
    } else {
      forall labels | Matches(reqs, labels)
        ensures Selected(SplitOf(reqs), labels)
      {
        SplitSelects(reqs, labels);
        SiftedMatch(reqs, labels);
        assert Sift(reqs, true) != [] ==> Meets(Sift(reqs, true)[0], labels);
      }
    }
  }

  /** With at most one troubleshoot requirement nothing is added either ... */
  lemma OneRequirementAddsNothing(reqs: seq<Requirement>, labels: Labels)
    requires reqs != [] && |Sift(reqs, true)| <= 1
    ensures Selected(SplitOf(reqs), labels) <==> Matches(reqs, labels)
  {
    var others, troubleshoot := Sift(reqs, false), Sift(reqs, true);
    SiftedMatch(reqs, labels);
    if |troubleshoot| == 1 {
      OnePart(others, troubleshoot[0]);
      assert troubleshoot == [] + [troubleshoot[0]];
      MatchesMore([], troubleshoot[0], labels);
      MatchesMore(others, troubleshoot[0], labels);
      SelectedByOne(others + [troubleshoot[0]], labels);
    } else {
      SelectedByOne(reqs, labels);
    }
  }

  lemma SelectedByOne(reqs: seq<Requirement>, labels: Labels)
    ensures Selected([reqs], labels) <==> Matches(reqs, labels)
  {
    assert [reqs][0] == reqs;
  }

  lemma SiftMore(reqs: seq<Requirement>, r: Requirement, troubleshoot: bool)
    ensures Sift(reqs + [r], troubleshoot) ==
            Sift(reqs, troubleshoot) + if IsTroubleshoot(r) == troubleshoot then [r] else []
  {
    assert (reqs + [r])[..|reqs|] == reqs;
  }

  /** ... and then splitting again changes nothing. */
  lemma SplitOnce(reqs: seq<Requirement>, i: nat)
    requires i < |SplitOf(reqs)|
    ensures SplitOf(SplitOf(reqs)[i]) == [SplitOf(reqs)[i]]
  {
    var others, troubleshoot := Sift(reqs, false), Sift(reqs, true);
    if troubleshoot != [] {
      PartAt(others, troubleshoot, i);
      SplitOnePart(others, troubleshoot[i]);
    }
  }

  lemma SplitOnePart(others: seq<Requirement>, r: Requirement)
    requires IsTroubleshoot(r) && forall i :: 0 <= i < |others| ==> !IsTroubleshoot(others[i])
    ensures SplitOf(others + [r]) == [others + [r]]
  {
    SiftOwn(others, false);
    SiftMore(others, r, true);
    SiftMore(others, r, false);
    assert others + [] == others && [] + [r] == [r];
    OnePart(others, r);
  }

  lemma OnePart(others: seq<Requirement>, r: Requirement)
    ensures Parts(others, [r]) == [others + [r]]
  {
    assert [r][..0] == [];
  }

  lemma {:induction false} PartAt(others: seq<Requirement>, troubleshoot: seq<Requirement>, i: nat)
    requires i < |Parts(others, troubleshoot)|
    ensures |Parts(others, troubleshoot)| == |troubleshoot|
    ensures Parts(others, troubleshoot)[i] == others + [troubleshoot[i]]
  {
    PartsLength(others, troubleshoot);
    if i < |troubleshoot| - 1 {
      PartsLength(others, troubleshoot[..|troubleshoot| - 1]);
      PartAt(others, troubleshoot[..|troubleshoot| - 1], i);
    }
  }

  lemma {:induction false} PartsLength(others: seq<Requirement>, troubleshoot: seq<Requirement>)
    ensures |Parts(others, troubleshoot)| == |troubleshoot|
  {
    if troubleshoot != [] {
      PartsLength(others, troubleshoot[..|troubleshoot| - 1]);
    }
  }

  lemma {:induction false} SiftOwn(reqs: seq<Requirement>, troubleshoot: bool)
    requires forall i :: 0 <= i < |reqs| ==> IsTroubleshoot(reqs[i]) == troubleshoot
    ensures Sift(reqs, troubleshoot) == reqs && Sift(reqs, !troubleshoot) == []
  {
    if reqs != [] {
      SiftOwn(reqs[..|reqs| - 1], troubleshoot);
    }
  }

  /** A Go slice from the start of its backing array. Slots from len on are spare capacity. */
  datatype Slice = Slice(data: array<Requirement>, len: nat) {
    ghost predicate Valid() {
      len <= data.Length
    }

    ghost function Contents(): seq<Requirement>
      requires Valid()
      reads data
    {
      data[..len]
    }
  }

  method NilSlice() returns (s: Slice)
    ensures s.Valid() && s.Contents() == [] && fresh(s.data)
  {
    var data := new Requirement[0];
    s := Slice(data, 0);
  }

  /** append: in place when there is spare capacity, else into a new array with some more of it. */
  method Append(s: Slice, r: Requirement, spare: nat) returns (longer: Slice)
    requires s.Valid()
    modifies s.data
    ensures longer.Valid() && longer.Contents() == old(s.Contents()) + [r]
    ensures s.Contents() == old(s.Contents())
    ensures if s.len < s.data.Length then longer.data == s.data else fresh(longer.data)
  {
    if s.len < s.data.Length {
      s.data[s.len] := r;
      longer := Slice(s.data, s.len + 1);
    } else {
      var data := new Requirement[s.len + 1 + spare](_ => r);
      for i := 0 to s.len
        invariant data[..i] == s.data[..i]
        invariant data[s.len] == r && s.data[..] == old(s.data[..])
      {
        data[i] := s.data[i];
      }
      longer := Slice(data, s.len + 1);
    }
  }

  /** Two slices made by appending to the same slice with spare capacity are one: keeping the
      first, instead of copying it before the second append, would have lost its requirement. */
  method AppendTwice(s: Slice, r: Requirement, r': Requirement) returns (first: Slice, second: Slice)
    requires s.Valid() && s.len < s.data.Length
    modifies s.data
    ensures first == second && first.Valid() && first.Contents() == old(s.Contents()) + [r']
  {
    first := Append(s, r, 0);
    second := Append(s, r', 0);
  }

  /** The first loop. spare: the capacity that append adds, which the language leaves open. */
  method SiftRequirements(reqs: seq<Requirement>, spare: nat -> nat)
    returns (troubleshootReqs: Slice, otherReqs: Slice)
    ensures troubleshootReqs.Valid() && troubleshootReqs.Contents() == Sift(reqs, true)
    ensures otherReqs.Valid() && otherReqs.Contents() == Sift(reqs, false)
    ensures fresh(troubleshootReqs.data) && fresh(otherReqs.data) && otherReqs.data != troubleshootReqs.data
  {
    troubleshootReqs := NilSlice();
    otherReqs := NilSlice();
    for i := 0 to |reqs|
      invariant troubleshootReqs.Valid() && fresh(troubleshootReqs.data)
      invariant otherReqs.Valid() && fresh(otherReqs.data) && otherReqs.data != troubleshootReqs.data
      invariant troubleshootReqs.Contents() == Sift(reqs[..i], true)
      invariant otherReqs.Contents() == Sift(reqs[..i], false)
    {
      assert reqs[..i + 1][..i] == reqs[..i];
      if IsTroubleshoot(reqs[i]) {
        troubleshootReqs := Append(troubleshootReqs, reqs[i], spare(i));
      } else {
        otherReqs := Append(otherReqs, reqs[i], spare(i));
      }
    }
    assert reqs[..|reqs|] == reqs;
  }

  /** Every new selector copies the slice it is made of, so no later append can change it. */
  method SplitTroubleshootSecretLabelSelector(selector: Selector, spare: nat -> nat) returns (r: Outcome)
    ensures r == if selector.MatchesNothing? then NotSelectable else Selectors(SplitOf(selector.reqs))
  {
    if selector.MatchesNothing? {
      return NotSelectable;
    }
    var troubleshootReqs, otherReqs := SiftRequirements(selector.reqs, spare);
    if troubleshootReqs.len == 0 && selector.reqs != [] {
      return Selectors([selector.reqs]);
    }

    var parsedSelectors: seq<seq<Requirement>> := [];
    ghost var others, troubleshoot := Sift(selector.reqs, false), Sift(selector.reqs, true);
    assert troubleshoot[..0] == [];
    for i := 0 to troubleshootReqs.len
      invariant troubleshootReqs.Valid() && troubleshootReqs.Contents() == troubleshoot
      invariant otherReqs.Valid() && otherReqs.Contents() == others
      invariant parsedSelectors == Parts(others, troubleshoot[..i])
    {
      assert troubleshootReqs.data[i] == troubleshootReqs.Contents()[i];
      var newReqs := Append(otherReqs, troubleshootReqs.data[i], spare(i));
      parsedSelectors := parsedSelectors + [newReqs.data[..newReqs.len]];
      assert troubleshoot[..i + 1][..i] == troubleshoot[..i];
    }
    assert troubleshoot[..troubleshootReqs.len] == troubleshoot;
    return Selectors(parsedSelectors);
  }
}
