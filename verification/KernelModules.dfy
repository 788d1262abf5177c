/** Outcomes of the kernel module analyzer: AnalyzeHostKernelModules.Analyze and
    compareKernelModuleConditionalToActual in pkg/analyze/host_kernel_modules.go. */
module KernelModules {
  import opened Options
  import opened Text

  datatype Outcome<T> = Ok(value: T) | Error

  /** The status of each module. */
  type Modules = map<string, string>

  predicate HasStatus(modules: Modules, name: string, statuses: seq<string>) {
    name in modules && modules[name] in statuses
  }

  predicate AllHaveStatus(modules: Modules, names: seq<string>, statuses: seq<string>) {
    forall i :: 0 <= i < |names| ==> HasStatus(modules, names[i], statuses)
  }

  /** No module in front of the first missing one has the status. */
  predicate NoneHasStatus(modules: Modules, names: seq<string>, statuses: seq<string>) {
    names == [] || names[0] !in modules ||
    (modules[names[0]] !in statuses && NoneHasStatus(modules, names[1..], statuses))
  }

  function Compared(parts: seq<string>, modules: Modules): Outcome<bool> {
    if |parts| != 3 then Error
    else
      var names, statuses := Split(parts[0], ','), Split(parts[2], ',');
      if parts[1] == "=" || parts[1] == "==" then Ok(AllHaveStatus(modules, names, statuses))
      else if parts[1] == "!=" || parts[1] == "<>" then Ok(NoneHasStatus(modules, names, statuses))
      else Error
  }

  method CompareKernelModuleConditionalToActual(conditional: string, modules: Modules) returns (r: Outcome<bool>)
    ensures r == Compared(Split(conditional, ' '), modules)
  {
    var parts := Split(conditional, ' ');
    if |parts| != 3 {
      return Error;
    }
    var names := Split(parts[0], ',');
    var statuses := Split(parts[2], ',');
    if parts[1] == "=" || parts[1] == "==" {
      for i := 0 to |names|
        invariant forall j :: 0 <= j < i ==> HasStatus(modules, names[j], statuses)
      {
        if names[i] !in modules {
          assert !HasStatus(modules, names[i], statuses);
          return Ok(false);
        }
        var moduleOK := false;
        for k := 0 to |statuses|
          invariant moduleOK <==> modules[names[i]] in statuses[..k]
        {
          if modules[names[i]] == statuses[k] {
            moduleOK := true;
          }
        }
        assert statuses[..|statuses|] == statuses;
        if !moduleOK {
          assert !HasStatus(modules, names[i], statuses);
          return Ok(false);
        }
      }
      return Ok(true);
    }
    if parts[1] == "!=" || parts[1] == "<>" {
      for i := 0 to |names|
        invariant NoneHasStatus(modules, names, statuses) <==> NoneHasStatus(modules, names[i..], statuses)
      {
        assert names[i..][0] == names[i] && names[i..][1..] == names[i + 1..];
        if names[i] !in modules {
          return Ok(true);
        }
        for k := 0 to |statuses|
          invariant modules[names[i]] !in statuses[..k]
        {
          if modules[names[i]] == statuses[k] {
            assert modules[names[i]] in statuses;
            return Ok(false);
          }
        }
        assert statuses[..|statuses|] == statuses;
      }
      return Ok(true);
    }
    return Error;
  }

  /** "!=" is the negation of "=" for one module; for more, "=" says that all have the status, "!="
      that none in front of the first missing one has. They never hold both ... */
  lemma NeverBoth(names: seq<string>, modules: Modules, statuses: seq<string>)
    requires names != []
    ensures !(AllHaveStatus(modules, names, statuses) && NoneHasStatus(modules, names, statuses))
    ensures |names| == 1 ==>
              (NoneHasStatus(modules, names, statuses) <==> !AllHaveStatus(modules, names, statuses))
  {
    if AllHaveStatus(modules, names, statuses) {
      assert HasStatus(modules, names[0], statuses);
    }
    if |names| == 1 {
      assert names[1..] == [];
    }
  }

  /** Module i has the status, and no module before it is missing. */
  predicate Reached(names: seq<string>, modules: Modules, statuses: seq<string>, i: nat) {
    i < |names| && HasStatus(modules, names[i], statuses) && forall j :: 0 <= j < i ==> names[j] in modules
  }

  /** ... but may both fail: "!=" fails as soon as a module has the status that no missing one precedes. */
  lemma {:induction false} NotEqualFailsIff(names: seq<string>, modules: Modules, statuses: seq<string>)
    ensures !NoneHasStatus(modules, names, statuses) <==> exists i: nat :: Reached(names, modules, statuses, i)
  {
    if names != [] {
      var rest := names[1..];
      NotEqualFailsIff(rest, modules, statuses);
      assert HasStatus(modules, names[0], statuses) ==> Reached(names, modules, statuses, 0);
      if names[0] in modules {
        forall i: nat
          ensures Reached(rest, modules, statuses, i) <==> Reached(names, modules, statuses, i + 1)
        {
          assert forall j :: 0 < j < i + 1 && j < |names| ==> names[j] == rest[j - 1];
          assert forall j :: 0 <= j < i && j < |rest| ==> rest[j] == names[j + 1];
        }
        if i: nat :| Reached(names, modules, statuses, i) {
          assert i > 0 ==> Reached(rest, modules, statuses, i - 1);
        }
      }
    }
  }

  /** Both fail exactly when one module has the status, no module before it is missing, and some
      module does not have the status. */
  lemma BothFailIff(names: seq<string>, modules: Modules, statuses: seq<string>)
    ensures !AllHaveStatus(modules, names, statuses) && !NoneHasStatus(modules, names, statuses) <==>
            && (exists k :: 0 <= k < |names| && !HasStatus(modules, names[k], statuses))
            && (exists i: nat :: Reached(names, modules, statuses, i))
  {
    NotEqualFailsIff(names, modules, statuses);
  }

  datatype Level = Fail | Warn | Pass

  datatype Result = Result(level: Level, message: string)

  datatype SingleOutcome = SingleOutcome(when: string, message: string)

  datatype OutcomeSpec = OutcomeSpec(
    fail: Option<SingleOutcome>,
    warn: Option<SingleOutcome>,
    pass: Option<SingleOutcome>)

  predicate Conditional(o: Option<SingleOutcome>) {
    o.Some? && o.value.when != ""
  }

  predicate Default(o: Option<SingleOutcome>) {
    o.Some? && o.value.when == ""
  }

  /** The condition that the first loop tests for an outcome, and the level that it stands for. */
  function Tested(o: OutcomeSpec): Option<(Level, SingleOutcome)> {
    if Conditional(o.fail) then Some((Fail, o.fail.value))
    else if Conditional(o.warn) then Some((Warn, o.warn.value))
    else if Conditional(o.pass) then Some((Pass, o.pass.value))
    else None
  }

  /** matches tells what a condition comes to. */
  type Matcher = string -> Outcome<bool>

  predicate Fires(o: OutcomeSpec, matches: Matcher) {
    Tested(o).Some? && matches(Tested(o).value.1.when) == Ok(true)
  }

  predicate Faulty(o: OutcomeSpec, matches: Matcher) {
    Tested(o).Some? && matches(Tested(o).value.1.when) == Error
  }

  function Matched(outcomes: seq<OutcomeSpec>, matches: Matcher): seq<Result> {
    if outcomes == [] then []
    else
      var front, last := Matched(outcomes[..|outcomes| - 1], matches), outcomes[|outcomes| - 1];
      if Fires(last, matches) then front + [Result(Tested(last).value.0, Tested(last).value.1.message)] else front
  }

  predicate HasLevel(results: seq<Result>, level: Level) {
    exists i :: 0 <= i < |results| && results[i].level == level
  }

  /** The default that the second loop takes from an outcome after the matches. */
  function DefaultOf(o: OutcomeSpec, passed: bool, failed: bool): Option<Result> {
    if Default(o.fail) && !passed then Some(Result(Fail, o.fail.value.message))
    else if Default(o.warn) && !passed && !failed then Some(Result(Warn, o.warn.value.message))
    else if Default(o.pass) && !failed then Some(Result(Pass, o.pass.value.message))
    else None
  }

  /** The first default there is. */
  function FirstDefault(outcomes: seq<OutcomeSpec>, passed: bool, failed: bool): Option<Result> {
    if outcomes == [] then None
    else if DefaultOf(outcomes[0], passed, failed).Some? then DefaultOf(outcomes[0], passed, failed)
    else FirstDefault(outcomes[1..], passed, failed)
  }

  function ToSeq(r: Option<Result>): seq<Result> {
    match r case None => [] case Some(result) => [result]
  }

  /** The results: what matched, then at most one default, and "no results" if that is nothing. */
  function Analyzed(outcomes: seq<OutcomeSpec>, matches: Matcher): (results: seq<Result>)
    ensures results != []
  {
    var matched := Matched(outcomes, matches);
    var all := matched + ToSeq(FirstDefault(outcomes, HasLevel(matched, Pass), HasLevel(matched, Fail)));
    if all == [] then [Result(Warn, "no results")] else all
  }

  method Analyze(outcomes: seq<OutcomeSpec>, matches: Matcher) returns (r: Outcome<seq<Result>>)
    ensures r == if exists i :: 0 <= i < |outcomes| && Faulty(outcomes[i], matches) then Error
                 else Ok(Analyzed(outcomes, matches))
  {
    var results: seq<Result> := [];
    var passed, failed := false, false;
    for i := 0 to |outcomes|
      invariant results == Matched(outcomes[..i], matches)
      invariant passed == HasLevel(results, Pass) && failed == HasLevel(results, Fail)
      invariant forall j :: 0 <= j < i ==> !Faulty(outcomes[j], matches)
    {
      assert outcomes[..i + 1][..i] == outcomes[..i];
      var o := outcomes[i];
      var tested := Tested(o);
      if tested.Some? {
        var (level, outcome) := tested.value;
        var isMatch := matches(outcome.when);
        if isMatch.Error? {
          assert Faulty(outcomes[i], matches);
          return Error;
        }
        if isMatch.value {
          LevelsOfMore(results, Result(level, outcome.message));
          results := results + [Result(level, outcome.message)];
          passed := passed || level == Pass;
          failed := failed || level == Fail;
        }
      }
    }
    assert outcomes[..|outcomes|] == outcomes;

    ghost var first := FirstDefault(outcomes, passed, failed);
    ghost var matched := results;
    for i := 0 to |outcomes|
      invariant results == matched && first == FirstDefault(outcomes[i..], passed, failed)
    {
      var byDefault := DefaultOf(outcomes[i], passed, failed);
      if byDefault.Some? {
        results := results + [byDefault.value];
        break;
      }
      assert outcomes[i..][1..] == outcomes[i + 1..];
    }
    assert results == matched + ToSeq(first);
    return Ok(if results == [] then [Result(Warn, "no results")] else results);
  }

  lemma LevelsOfMore(results: seq<Result>, r: Result)
    ensures forall level :: HasLevel(results + [r], level) <==> HasLevel(results, level) || r.level == level
  {
    var more := results + [r];
    assert more[|results|] == r;
    forall level | HasLevel(results, level)
      ensures HasLevel(more, level)
    {
      var i :| 0 <= i < |results| && results[i].level == level;
      assert more[i].level == level;
    }
  }

  /** A default is taken by the documented rule: fail only when nothing matched a pass outcome, warn
      only when nothing matched a pass or fail outcome, pass only when nothing matched a fail one;
      of the allowed ones the first, and within an outcome fail before warn before pass. */
  lemma {:induction false} DefaultRule(outcomes: seq<OutcomeSpec>, passed: bool, failed: bool)
    ensures match FirstDefault(outcomes, passed, failed)
            case None => forall i :: 0 <= i < |outcomes| ==> DefaultOf(outcomes[i], passed, failed).None?
            case Some(r) =>
              && (r.level == Fail ==> !passed)
              && (r.level == Warn ==> !passed && !failed)
              && (r.level == Pass ==> !failed)
              && exists i :: 0 <= i < |outcomes| && DefaultOf(outcomes[i], passed, failed) == Some(r)
                   && forall j :: 0 <= j < i ==> DefaultOf(outcomes[j], passed, failed).None?
  {
    if outcomes != [] && DefaultOf(outcomes[0], passed, failed).None? {
      var rest := outcomes[1..];
      DefaultRule(rest, passed, failed);
      match FirstDefault(rest, passed, failed)
      case None =>
        assert forall i :: 0 < i < |outcomes| ==> outcomes[i] == rest[i - 1];
      case Some(r) =>
        var i :| 0 <= i < |rest| && DefaultOf(rest[i], passed, failed) == Some(r)
          && forall j :: 0 <= j < i ==> DefaultOf(rest[j], passed, failed).None?;
        assert outcomes[i + 1] == rest[i];
        assert forall j :: 0 < j < i + 1 ==> outcomes[j] == rest[j - 1];
    }
  }

  /** After both a pass and a fail outcome matched there is no default. */
  lemma NoDefaultAfterBoth(outcomes: seq<OutcomeSpec>, matches: Matcher)
    requires HasLevel(Matched(outcomes, matches), Pass) && HasLevel(Matched(outcomes, matches), Fail)
    ensures Analyzed(outcomes, matches) == Matched(outcomes, matches)
  {
    DefaultRule(outcomes, true, true);
  }

  /** The words of a condition: "=" and "==" ask that every named module is there in one of the states,
      "!=" and "<>" that none before the first missing one is; no other operator and no other number of
      words will do. */
  lemma ConditionWords(parts: seq<string>, modules: Modules)
    ensures |parts| != 3 ==> Compared(parts, modules) == Error
    ensures |parts| == 3 && parts[1] in ["=", "=="] ==>
              var names, states := Split(parts[0], ','), Split(parts[2], ',');
              Compared(parts, modules) ==
              Ok(forall i :: 0 <= i < |names| ==> names[i] in modules && modules[names[i]] in states)
    ensures |parts| == 3 && parts[1] in ["!=", "<>"] ==>
              var names, states := Split(parts[0], ','), Split(parts[2], ',');
              Compared(parts, modules) ==
              Ok(!exists i :: 0 <= i < |names| && names[i] in modules && modules[names[i]] in states
                   && forall j :: 0 <= j < i ==> names[j] in modules)
    ensures |parts| == 3 && parts[1] !in ["=", "==", "!=", "<>"] ==> Compared(parts, modules) == Error
  {
    if |parts| == 3 {
      var names, states := Split(parts[0], ','), Split(parts[2], ',');
      NotEqualFailsIff(names, modules, states);
      if i: nat :| Reached(names, modules, states, i) {
        assert names[i] in modules && modules[names[i]] in states;
      }
      forall i: nat | i < |names| && names[i] in modules && modules[names[i]] in states
        ensures (forall j :: 0 <= j < i ==> names[j] in modules) ==> Reached(names, modules, states, i)
      {
      }
    }
  }

  /** What one outcome gives: its first part with a condition is tested, and when that holds gives a
      result of that part's kind. */
  lemma OneOutcome(o: OutcomeSpec, matches: Matcher)
    ensures o.fail.Some? && o.fail.value.when != "" ==>
              Gives(o, matches, o.fail.value, Fail)
    ensures !(o.fail.Some? && o.fail.value.when != "") && o.warn.Some? && o.warn.value.when != "" ==>
              Gives(o, matches, o.warn.value, Warn)
    ensures !(o.fail.Some? && o.fail.value.when != "") && !(o.warn.Some? && o.warn.value.when != "")
            && o.pass.Some? && o.pass.value.when != "" ==>
              Gives(o, matches, o.pass.value, Pass)
    ensures !(o.fail.Some? && o.fail.value.when != "") && !(o.warn.Some? && o.warn.value.when != "")
            && !(o.pass.Some? && o.pass.value.when != "") ==>
              Matched([o], matches) == [] && !Faulty(o, matches)
  {
    assert [o][..0] == [];
  }

  predicate Gives(o: OutcomeSpec, matches: Matcher, part: SingleOutcome, level: Level) {
    && (Faulty(o, matches) <==> matches(part.when) == Error)
    && Matched([o], matches) == if matches(part.when) == Ok(true) then [Result(level, part.message)] else []
  }

  /** And the outcomes give their results in order. */
  lemma {:induction false} MatchedInOrder(a: seq<OutcomeSpec>, b: seq<OutcomeSpec>, matches: Matcher)
    ensures Matched(a + b, matches) == Matched(a, matches) + Matched(b, matches)
  {
    if b == [] {
      assert a + b == a;
    } else {
      var front, last := b[..|b| - 1], b[|b| - 1];
      MatchedInOrder(a, front, matches);
      assert (a + b)[..|a + b| - 1] == a + front && (a + b)[|a + b| - 1] == last;
    }
  }

  /** An outcome has a default that the documented rule allows. */
  predicate Allows(o: OutcomeSpec, passed: bool, failed: bool, r: Result) {
    match r.level
    case Fail => o.fail == Some(SingleOutcome("", r.message)) && !passed
    case Warn => o.warn == Some(SingleOutcome("", r.message)) && !passed && !failed
    case Pass => o.pass == Some(SingleOutcome("", r.message)) && !failed
  }

  /** A default fail comes before a default warn before a default pass of the same outcome. */
  lemma DefaultIsAllowed(o: OutcomeSpec, passed: bool, failed: bool)
    ensures match DefaultOf(o, passed, failed)
            case None => forall r :: !Allows(o, passed, failed, r)
            case Some(r) =>
              && Allows(o, passed, failed, r)
              && (r.level == Warn ==> forall m :: !Allows(o, passed, failed, Result(Fail, m)))
              && (r.level == Pass ==> forall m :: !Allows(o, passed, failed, Result(Fail, m))
                                                  && !Allows(o, passed, failed, Result(Warn, m)))
  {
    assert forall part: Option<SingleOutcome>, m :: part == Some(SingleOutcome("", m)) ==> Default(part);
    if Default(o.fail) {
      assert o.fail == Some(SingleOutcome("", o.fail.value.message));
    }
    if Default(o.warn) {
      assert o.warn == Some(SingleOutcome("", o.warn.value.message));
    }
    if Default(o.pass) {
      assert o.pass == Some(SingleOutcome("", o.pass.value.message));
    }
  }

  /** r is a default of outcome i that is allowed, and no earlier outcome has one. */
  ghost predicate FirstAllowed(outcomes: seq<OutcomeSpec>, passed: bool, failed: bool, i: nat, r: Result) {
    && i < |outcomes| && Allows(outcomes[i], passed, failed, r)
    && forall j, r' :: 0 <= j < i ==> !Allows(outcomes[j], passed, failed, r')
  }

  lemma DefaultByRule(outcomes: seq<OutcomeSpec>, passed: bool, failed: bool)
    ensures match FirstDefault(outcomes, passed, failed)
            case None => forall i, r :: 0 <= i < |outcomes| ==> !Allows(outcomes[i], passed, failed, r)
            case Some(r) => exists i: nat :: FirstAllowed(outcomes, passed, failed, i, r)
  {
    DefaultRule(outcomes, passed, failed);
    forall i | 0 <= i < |outcomes|
      ensures DefaultOf(outcomes[i], passed, failed).None? <==> forall r :: !Allows(outcomes[i], passed, failed, r)
      ensures DefaultOf(outcomes[i], passed, failed).Some? ==>
                Allows(outcomes[i], passed, failed, DefaultOf(outcomes[i], passed, failed).value)
    {
      DefaultIsAllowed(outcomes[i], passed, failed);
    }
    if FirstDefault(outcomes, passed, failed).Some? {
      var r := FirstDefault(outcomes, passed, failed).value;
      var i: nat :| i < |outcomes| && DefaultOf(outcomes[i], passed, failed) == Some(r)
        && forall j :: 0 <= j < i ==> DefaultOf(outcomes[j], passed, failed).None?;
      assert FirstAllowed(outcomes, passed, failed, i, r);
    }
  }

  /** The results are the matches, and behind them the first default that is allowed by what matched:
      a fail when no pass did, a warning when neither did, a pass when no fail did. Without either there
      is one result that says so. */
  lemma AnalyzedByRule(outcomes: seq<OutcomeSpec>, matches: Matcher, passed: bool, failed: bool)
    requires var matched := Matched(outcomes, matches);
             && passed == (exists i :: 0 <= i < |matched| && matched[i].level == Pass)
             && failed == (exists i :: 0 <= i < |matched| && matched[i].level == Fail)
    ensures var all, matched := Analyzed(outcomes, matches), Matched(outcomes, matches);
            if exists i, r :: 0 <= i < |outcomes| && Allows(outcomes[i], passed, failed, r) then
              exists i: nat, r :: FirstAllowed(outcomes, passed, failed, i, r) && all == matched + [r]
            else all == if matched == [] then [Result(Warn, "no results")] else matched
  {
    var matched := Matched(outcomes, matches);
    if passed {
      var i :| 0 <= i < |matched| && matched[i].level == Pass;
      assert HasLevel(matched, Pass);
    }
    if failed {
      var i :| 0 <= i < |matched| && matched[i].level == Fail;
      assert HasLevel(matched, Fail);
    }
    DefaultByRule(outcomes, passed, failed);
    assert matched + [] == matched;
  }
}
