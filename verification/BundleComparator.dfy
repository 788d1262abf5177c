/** The books of the bundle comparison: BundleComparator.compare, _compare_file, _record_diff and
    _record_missing in scripts/compare_bundles.py. */
module BundleComparator {

  datatype Mode = Exact | Structural | NonEmpty

  /** How the check of one file comes out; Raises stands for an exception. */
  datatype Check = Holds | Differs | Raises

  datatype Difference = Difference(file: string, mode: string)

  datatype Location = Current | Baseline

  /** What the comparison depends on: the rules, what fnmatch says of a file and a pattern, how the
      check of each mode comes out for a file, and which files are optional. */
  datatype World = World(
    exactMatch: seq<string>,
    structural: seq<(string, string)>,
    matches: (string, string) -> bool,
    sameBytes: string -> Check,
    sameStructure: (string, string) -> Check,
    nonEmpty: string -> Check,
    optional: string -> bool)
  {
    predicate MatchesExactly(file: string, pattern: string) {
      matches(file, pattern) || file == pattern
    }

    predicate IsExact(file: string) {
      exists i :: 0 <= i < |exactMatch| && MatchesExactly(file, exactMatch[i])
    }

    predicate IsStructural(file: string) {
      exists i :: 0 <= i < |structural| && matches(file, structural[i].0)
    }

    /** Exact rules come before structural ones, and a file without a rule must not be empty. */
    function Mode(file: string): Mode {
      if IsExact(file) then Exact else if IsStructural(file) then Structural else NonEmpty
    }

    /** The comparator of the first pattern that matches. */
    function Comparator(rules: seq<(string, string)>, file: string): string {
      if rules == [] then "unknown" else if matches(file, rules[0].0) then rules[0].1 else Comparator(rules[1..], file)
    }

    function CheckOf(file: string): Check {
      match Mode(file)
      case Exact => sameBytes(file)
      case Structural => sameStructure(file, Comparator(structural, file))
      case NonEmpty => nonEmpty(file)
    }
  }

  /** What a file is checked for: its bytes, if it is a pattern of the exact rules or matches one,
      whatever the structural rules say; else its structure, if it matches one of those; else that it is
      not empty. And it is recorded exactly when that does not hold, under the rule's name or as an
      error. */
  lemma RulesDecide(w: World, file: string)
    ensures var exact :=
              exists i :: 0 <= i < |w.exactMatch| && (file == w.exactMatch[i] || w.matches(file, w.exactMatch[i]));
            var structural := exists i :: 0 <= i < |w.structural| && w.matches(file, w.structural[i].0);
            && (exact ==> Recorded(w, file, w.sameBytes(file), "exact"))
            && (!exact && structural ==>
                  Recorded(w, file, w.sameStructure(file, w.Comparator(w.structural, file)), "structural"))
            && (!exact && !structural ==> Recorded(w, file, w.nonEmpty(file), "non_empty"))
  {
    var exact := exists i :: 0 <= i < |w.exactMatch| && (file == w.exactMatch[i] || w.matches(file, w.exactMatch[i]));
    assert exact <==> w.IsExact(file) by {
      assert forall i :: 0 <= i < |w.exactMatch| ==>
        (w.MatchesExactly(file, w.exactMatch[i]) <==> file == w.exactMatch[i] || w.matches(file, w.exactMatch[i]));
    }
  }

  predicate Recorded(w: World, file: string, check: Check, mode: string) {
    DifferenceOf(w, file) ==
    if check == Holds then [] else [Difference(file, if check == Raises then "error" else mode)]
  }

  /** A file that is compared structurally is compared by the comparator of the first of the rules
      whose pattern matches it, so never by the fallback. */
  lemma {:induction false} StructuralHasComparator(w: World, rules: seq<(string, string)>, file: string)
    returns (i: nat)
    requires exists k :: 0 <= k < |rules| && w.matches(file, rules[k].0)
    ensures i < |rules| && w.matches(file, rules[i].0) && w.Comparator(rules, file) == rules[i].1
    ensures forall j :: 0 <= j < i ==> !w.matches(file, rules[j].0)
  {
    if w.matches(file, rules[0].0) {
      i := 0;
    } else {
      var k :| 0 <= k < |rules| && w.matches(file, rules[k].0);
      assert rules[1..][k - 1] == rules[k];
      i := StructuralHasComparator(w, rules[1..], file);
      i := i + 1;
      assert forall j :: 0 < j < i ==> rules[j] == rules[1..][j - 1];
    }
  }

  /** The difference that a file is recorded with, if any. */
  function DifferenceOf(w: World, file: string): seq<Difference> {
    match w.CheckOf(file)
    case Holds => []
    case Raises => [Difference(file, "error")]
    case Differs =>
      match w.Mode(file)
      case Exact => [Difference(file, "exact")]
      case Structural => [Difference(file, "structural")]
      case NonEmpty => [Difference(file, "non_empty")]
  }

  function DifferencesOf(w: World, files: seq<string>): seq<Difference> {
    if files == [] then []
    else DifferencesOf(w, files[..|files| - 1]) + DifferenceOf(w, files[|files| - 1])
  }

  function Passes(w: World, file: string, mode: Mode): nat {
    if w.CheckOf(file).Holds? && w.Mode(file) == mode then 1 else 0
  }

  /** How many of the files pass the check of a mode. */
  function Passed(w: World, files: seq<string>, mode: Mode): nat {
    if files == [] then 0
    else Passed(w, files[..|files| - 1], mode) + Passes(w, files[|files| - 1], mode)
  }

  function Required(w: World, files: seq<string>): seq<string> {
    if files == [] then []
    else
      var front, last := Required(w, files[..|files| - 1]), files[|files| - 1];
      if w.optional(last) then front else front + [last]
  }

  /** The files that count as missing are those that are not optional, in their order. */
  lemma {:induction false} RequiredAre(w: World, a: seq<string>, file: string, b: seq<string>)
    ensures Required(w, a + [file] + b) == Required(w, a) + (if w.optional(file) then [] else [file]) + Required(w, b)
  {
    if b == [] {
      assert a + [file] + [] == a + [file] && (a + [file])[..|a|] == a;
    } else {
      var front, last, all := b[..|b| - 1], b[|b| - 1], a + [file] + b;
      RequiredAre(w, a, file, front);
      assert all[..|all| - 1] == a + [file] + front && all[|all| - 1] == last;
    }
  }

  lemma {:induction false} EveryFileIsCounted(w: World, files: seq<string>)
    ensures Passed(w, files, Exact) + Passed(w, files, Structural) + Passed(w, files, NonEmpty)
          + |DifferencesOf(w, files)| == |files|
  {
    if files != [] {
      EveryFileIsCounted(w, files[..|files| - 1]);
    }
  }

  /** Comparing one more of the files. */
  lemma OneMoreCompared(w: World, before: seq<Difference>, files: seq<string>, i: nat)
    requires i < |files|
    ensures before + DifferencesOf(w, files[..i + 1]) ==
            before + DifferencesOf(w, files[..i]) + DifferenceOf(w, files[i])
    ensures forall mode :: Passed(w, files[..i + 1], mode) == Passed(w, files[..i], mode) + Passes(w, files[i], mode)
  {
    assert files[..i + 1][..i] == files[..i];
  }

  predicate AllHold(w: World, files: seq<string>) {
    forall i :: 0 <= i < |files| ==> w.CheckOf(files[i]).Holds?
  }

  predicate AllOptional(w: World, files: seq<string>) {
    forall i :: 0 <= i < |files| ==> w.optional(files[i])
  }

  lemma EmptySum<T>(a: seq<T>, b: seq<T>)
    ensures a + b == [] <==> a == [] && b == []
  {
    assert |a + b| == |a| + |b|;
  }

  lemma {:induction false} NoDifferenceIff(w: World, files: seq<string>)
    ensures DifferencesOf(w, files) == [] <==> AllHold(w, files)
  {
    if files != [] {
      NoDifferenceIff(w, files[..|files| - 1]);
      assert forall i :: 0 <= i < |files| - 1 ==> files[..|files| - 1][i] == files[i];
    }
  }

  lemma {:induction false} NoneRequiredIff(w: World, files: seq<string>)
    ensures Required(w, files) == [] <==> AllOptional(w, files)
  {
    if files != [] {
      NoneRequiredIff(w, files[..|files| - 1]);
      assert forall i :: 0 <= i < |files| - 1 ==> files[..|files| - 1][i] == files[i];
    }
  }

  lemma NoRegressionIff(w: World, differences: seq<Difference>, common: seq<string>,
                        missing: seq<string>, onlyBaseline: seq<string>)
    ensures differences + DifferencesOf(w, common) == [] && missing + Required(w, onlyBaseline) == [] <==>
            differences == [] && missing == [] && AllHold(w, common) && AllOptional(w, onlyBaseline)
  {
    EmptySum(differences, DifferencesOf(w, common));
    EmptySum(missing, Required(w, onlyBaseline));
    NoDifferenceIff(w, common);
    NoneRequiredIff(w, onlyBaseline);
  }

  class BundleComparator {
    var filesCompared: nat
    var exactMatches: nat
    var structuralMatches: nat
    var nonEmptyChecks: nat
    var filesDifferent: nat
    var filesMissingInCurrent: nat
    var filesMissingInBaseline: nat
    var differences: seq<Difference>
    var missingInCurrent: seq<string>
    var missingInBaseline: seq<string>

    /** Every compared file is counted once, and every count has its list. */
    ghost predicate Balanced()
      reads this
    {
      && filesCompared == exactMatches + structuralMatches + nonEmptyChecks + filesDifferent
      && filesDifferent == |differences|
      && filesMissingInCurrent == |missingInCurrent|
      && filesMissingInBaseline == |missingInBaseline|
    }

    constructor ()
      ensures Balanced() && filesCompared == 0
      ensures exactMatches == structuralMatches == nonEmptyChecks == 0
      ensures differences == [] && missingInCurrent == [] && missingInBaseline == []
    {
      filesCompared, exactMatches, structuralMatches, nonEmptyChecks, filesDifferent := 0, 0, 0, 0, 0;
      filesMissingInCurrent, filesMissingInBaseline := 0, 0;
      differences, missingInCurrent, missingInBaseline := [], [], [];
    }

    method RecordDiff(file: string, mode: string)
      modifies this`filesDifferent, this`differences
      ensures filesDifferent == old(filesDifferent) + 1
      ensures differences == old(differences) + [Difference(file, mode)]
    {
      filesDifferent := filesDifferent + 1;
      differences := differences + [Difference(file, mode)];
    }

    method RecordMissing(location: Location, file: string)
      requires Balanced()
      modifies this`filesMissingInCurrent, this`filesMissingInBaseline, this`missingInCurrent, this`missingInBaseline
      ensures Balanced()
      ensures missingInCurrent == if location == Current then old(missingInCurrent) + [file] else old(missingInCurrent)
      ensures missingInBaseline ==
              if location == Baseline then old(missingInBaseline) + [file] else old(missingInBaseline)
    {
      if location == Current {
        filesMissingInCurrent := filesMissingInCurrent + 1;
        missingInCurrent := missingInCurrent + [file];
      } else {
        filesMissingInBaseline := filesMissingInBaseline + 1;
        missingInBaseline := missingInBaseline + [file];
      }
    }

    method CompareFile(w: World, file: string)
      requires Balanced()
      modifies this
      ensures Balanced() && filesCompared == old(filesCompared) + 1
      ensures differences == old(differences) + DifferenceOf(w, file)
      ensures exactMatches == old(exactMatches) + Passes(w, file, Exact)
      ensures structuralMatches == old(structuralMatches) + Passes(w, file, Structural)
      ensures nonEmptyChecks == old(nonEmptyChecks) + Passes(w, file, NonEmpty)
      ensures missingInCurrent == old(missingInCurrent) && missingInBaseline == old(missingInBaseline)
    {
      filesCompared := filesCompared + 1;
      var mode := GetComparisonMode(w, file);
      var check: Check;
      match mode {
        case Exact =>
          check := w.sameBytes(file);
          if check.Holds? {
            exactMatches := exactMatches + 1;
          } else if check.Differs? {
            RecordDiff(file, "exact");
          }
        case Structural =>
          var comparator := GetStructuralComparator(w, file);
          check := w.sameStructure(file, comparator);
          if check.Holds? {
            structuralMatches := structuralMatches + 1;
          } else if check.Differs? {
            RecordDiff(file, "structural");
          }
        case NonEmpty =>
          check := w.nonEmpty(file);
          if check.Holds? {
            nonEmptyChecks := nonEmptyChecks + 1;
          } else if check.Differs? {
            RecordDiff(file, "non_empty");
          }
      }
      if check.Raises? {
        RecordDiff(file, "error");
      }
    }

    method GetComparisonMode(w: World, file: string) returns (mode: Mode)
      ensures mode == w.Mode(file)
    {
      for i := 0 to |w.exactMatch|
        invariant forall j :: 0 <= j < i ==> !w.MatchesExactly(file, w.exactMatch[j])
      {
        if w.MatchesExactly(file, w.exactMatch[i]) {
          return Exact;
        }
      }
      for i := 0 to |w.structural|
        invariant forall j :: 0 <= j < i ==> !w.matches(file, w.structural[j].0)
      {
        if w.matches(file, w.structural[i].0) {
          return Structural;
        }
      }
      return NonEmpty;
    }

    method GetStructuralComparator(w: World, file: string) returns (comparator: string)
      ensures comparator == w.Comparator(w.structural, file)
    {
      for i := 0 to |w.structural|
        invariant w.Comparator(w.structural, file) == w.Comparator(w.structural[i..], file)
      {
        assert w.structural[i..][1..] == w.structural[i + 1..];
        if w.matches(file, w.structural[i].0) {
          return w.structural[i].1;
        }
      }
      return "unknown";
    }

    /** The files of each bundle that the other lacks, and those of both, each in sorted order. The
        books go on from earlier comparisons, so an earlier regression stays one. */
    method Compare(w: World, onlyBaseline: seq<string>, onlyCurrent: seq<string>, common: seq<string>)
      returns (noRegressions: bool)
      requires Balanced()
      modifies this
      ensures Balanced() && filesCompared == old(filesCompared) + |common|
      ensures differences == old(differences) + DifferencesOf(w, common)
      ensures missingInCurrent == old(missingInCurrent) + Required(w, onlyBaseline)
      ensures missingInBaseline == old(missingInBaseline) + Required(w, onlyCurrent)
      ensures exactMatches == old(exactMatches) + Passed(w, common, Exact)
      ensures structuralMatches == old(structuralMatches) + Passed(w, common, Structural)
      ensures nonEmptyChecks == old(nonEmptyChecks) + Passed(w, common, NonEmpty)
      ensures noRegressions <==> differences == [] && missingInCurrent == []
      ensures noRegressions <==>
                && old(differences) == [] && old(missingInCurrent) == []
                && AllHold(w, common) && AllOptional(w, onlyBaseline)
    {
      RecordAllMissing(w, Current, onlyBaseline);
      RecordAllMissing(w, Baseline, onlyCurrent);
      CompareCommon(w, common);
      NoRegressionIff(w, old(differences), common, old(missingInCurrent), onlyBaseline);
      var hasRegressions := filesDifferent > 0 || filesMissingInCurrent > 0;
      return !hasRegressions;
    }

    method RecordAllMissing(w: World, location: Location, files: seq<string>)
      requires Balanced()
      modifies this`filesMissingInCurrent, this`filesMissingInBaseline, this`missingInCurrent, this`missingInBaseline
      ensures Balanced()
      ensures missingInCurrent ==
              if location == Current then old(missingInCurrent) + Required(w, files) else old(missingInCurrent)
      ensures missingInBaseline ==
              if location == Baseline then old(missingInBaseline) + Required(w, files) else old(missingInBaseline)
    {
      ghost var required: seq<string> := [];
      for i := 0 to |files|
        invariant Balanced() && required == Required(w, files[..i])
        invariant location == Current ==> missingInCurrent == old(missingInCurrent) + required
        invariant location == Current ==> missingInBaseline == old(missingInBaseline)
        invariant location == Baseline ==> missingInCurrent == old(missingInCurrent)
        invariant location == Baseline ==> missingInBaseline == old(missingInBaseline) + required
      {
        assert files[..i + 1][..i] == files[..i];
        if !w.optional(files[i]) {
          RecordMissing(location, files[i]);
          required := required + [files[i]];
        }
      }
      assert files[..|files|] == files;
    }

    method CompareCommon(w: World, common: seq<string>)
      requires Balanced()
      modifies this
      ensures Balanced() && filesCompared == old(filesCompared) + |common|
      ensures differences == old(differences) + DifferencesOf(w, common)
      ensures exactMatches == old(exactMatches) + Passed(w, common, Exact)
      ensures structuralMatches == old(structuralMatches) + Passed(w, common, Structural)
      ensures nonEmptyChecks == old(nonEmptyChecks) + Passed(w, common, NonEmpty)
      ensures missingInCurrent == old(missingInCurrent) && missingInBaseline == old(missingInBaseline)
    {
      for i := 0 to |common|
        invariant Balanced() && filesCompared == old(filesCompared) + i
        invariant differences == old(differences) + DifferencesOf(w, common[..i])
        invariant exactMatches == old(exactMatches) + Passed(w, common[..i], Exact)
        invariant structuralMatches == old(structuralMatches) + Passed(w, common[..i], Structural)
        invariant nonEmptyChecks == old(nonEmptyChecks) + Passed(w, common[..i], NonEmpty)
        invariant missingInCurrent == old(missingInCurrent) && missingInBaseline == old(missingInBaseline)
      {
        OneMoreCompared(w, old(differences), common, i);
        CompareFile(w, common[i]);
      }
      assert common[..|common|] == common;
    }
  }
}
