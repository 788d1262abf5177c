/** Accounting in the analysis engine: RegisterAgent, Analyze, runAgentAnalysis and
    calculateSummary in pkg/analyze/engine.go. */
module Engine {
  import opened Options
  import opened Text
  import opened Sums

  datatype AnalyzerResult = AnalyzerResult(isPass: bool, isWarn: bool, isFail: bool, confidence: real,
                                           agentName: string, title: string)

  datatype Agent = Agent(name: string)

  /** What an agent's Analyze gives back: an error, or results and the errors of single analyzers. */
  datatype AgentOutcome = Failed(error: string) | Succeeded(results: seq<AnalyzerResult>, errors: seq<string>)

  datatype Run = Run(agent: Agent, outcome: AgentOutcome)

  datatype AgentMetadata = AgentMetadata(name: string, resultCount: nat, errorCount: nat)

  datatype AnalysisError = AnalysisError(agent: string, error: string, category: string)

  datatype Summary = Summary(totalAnalyzers: nat, passCount: nat, warnCount: nat, failCount: nat,
                             errorCount: nat, confidence: real, agentsUsed: seq<string>)

  datatype Analysis = Analysis(results: seq<AnalyzerResult>, agents: seq<AgentMetadata>,
                               errors: seq<AnalysisError>, summary: Summary)

  datatype Problem = NoBundle | NotRegistered(name: string) | NoneAvailable

  datatype Outcome<T> = Ok(value: T) | Err(problem: Problem)

  datatype RegisterProblem = EmptyName | NilAgent | AlreadyRegistered

  /** The agents after one registration, which changes nothing unless the name is new. */
  function Registered(agents: map<string, Agent>, name: string, agent: Option<Agent>): map<string, Agent> {
    if name == "" || agent.None? || name in agents then agents else agents[name := agent.value]
  }

  function RegisteredAll(agents: map<string, Agent>, calls: seq<(string, Option<Agent>)>): map<string, Agent>
    decreases |calls|
  {
    if calls == [] then agents
    else RegisteredAll(Registered(agents, calls[0].0, calls[0].1), calls[1..])
  }

  /** Whatever is registered later, a registered name keeps its agent; and the agent of a name is the
      one of the first call that gave one for it. */
  lemma {:induction false} NameKeepsAgent(agents: map<string, Agent>, calls: seq<(string, Option<Agent>)>, name: string)
    ensures name in agents ==>
              name in RegisteredAll(agents, calls) && RegisteredAll(agents, calls)[name] == agents[name]
    ensures name == "" && name !in agents ==> name !in RegisteredAll(agents, calls)
    ensures name !in agents && name in RegisteredAll(agents, calls) ==>
              exists i :: 0 <= i < |calls| && calls[i] == (name, Some(RegisteredAll(agents, calls)[name]))
                && forall j :: 0 <= j < i ==> calls[j].0 != name || calls[j].1.None?
    decreases |calls|
  {
    if calls != [] {
      var next, rest := Registered(agents, calls[0].0, calls[0].1), calls[1..];
      NameKeepsAgent(next, rest, name);
      if name !in agents && name in RegisteredAll(agents, calls) {
        if name in next {
          assert calls[0] == (name, Some(next[name]));
        } else {
          var i :| 0 <= i < |rest| && rest[i] == (name, Some(RegisteredAll(agents, calls)[name]))
            && forall j :: 0 <= j < i ==> rest[j].0 != name || rest[j].1.None?;
          assert calls[i + 1] == rest[i];
          forall j | 0 <= j < i + 1
            ensures calls[j].0 != name || calls[j].1.None?
          {
            assert j > 0 ==> calls[j] == rest[j - 1];
          }
        }
      }
    }
  }

  /** The failure result in place of an analyzer that cannot be converted. */
  function Failure(analyzer: nat): AnalyzerResult {
    AnalyzerResult(false, false, true, 1.0, "analyzer-converter",
                   "Custom Analyzer " + PrintDigits(analyzer) + " - Conversion Failed")
  }

  /** convert tells of the analyzer at each place its specification, if it has one. */
  type Conversion = nat -> Option<string>

  function Specs(n: nat, convert: Conversion): seq<string> {
    if n == 0 then []
    else Specs(n - 1, convert) + match convert(n - 1) case Some(spec) => [spec] case None => []
  }

  function Failures(n: nat, convert: Conversion): seq<AnalyzerResult> {
    if n == 0 then []
    else Failures(n - 1, convert) + if convert(n - 1).None? then [Failure(n - 1)] else []
  }

  /** Every custom analyzer becomes a specification or a failure. */
  lemma {:induction false} NoAnalyzerIsLost(n: nat, convert: Conversion)
    ensures |Specs(n, convert)| + |Failures(n, convert)| == n
  {
    if n > 0 {
      NoAnalyzerIsLost(n - 1, convert);
    }
  }

  function Named(results: seq<AnalyzerResult>, name: string): (named: seq<AnalyzerResult>)
    ensures |named| == |results|
    ensures forall i :: 0 <= i < |results| ==> named[i] == results[i].(agentName := name)
  {
    seq(|results|, i requires 0 <= i < |results| => results[i].(agentName := name))
  }

  function ResultsOf(runs: seq<Run>): seq<AnalyzerResult> {
    if runs == [] then []
    else
      var last := runs[|runs| - 1];
      ResultsOf(runs[..|runs| - 1]) +
      match last.outcome case Failed(_) => [] case Succeeded(results, _) => Named(results, last.agent.name)
  }

  function AgentErrors(agent: string, errors: seq<string>): (r: seq<AnalysisError>)
    ensures |r| == |errors|
  {
    seq(|errors|, i requires 0 <= i < |errors| => AnalysisError(agent, errors[i], "analyzer_execution"))
  }

  function ErrorsOf(runs: seq<Run>): seq<AnalysisError> {
    if runs == [] then []
    else
      var last := runs[|runs| - 1];
      ErrorsOf(runs[..|runs| - 1]) +
      match last.outcome
      case Failed(error) => [AnalysisError(last.agent.name, error, "agent_execution")]
      case Succeeded(_, errors) => AgentErrors(last.agent.name, errors)
  }

  function MetadataOf(run: Run): AgentMetadata {
    match run.outcome
    case Failed(_) => AgentMetadata(run.agent.name, 0, 1)
    case Succeeded(results, errors) => AgentMetadata(run.agent.name, |results|, |errors|)
  }

  function AllMetadata(runs: seq<Run>): seq<AgentMetadata> {
    if runs == [] then [] else AllMetadata(runs[..|runs| - 1]) + [MetadataOf(runs[|runs| - 1])]
  }

  function SumOfResults(agents: seq<AgentMetadata>): nat {
    if agents == [] then 0 else SumOfResults(agents[..|agents| - 1]) + agents[|agents| - 1].resultCount
  }

  function SumOfErrors(agents: seq<AgentMetadata>): nat {
    if agents == [] then 0 else SumOfErrors(agents[..|agents| - 1]) + agents[|agents| - 1].errorCount
  }

  lemma {:induction false} CountsAddUp(runs: seq<Run>)
    ensures SumOfResults(AllMetadata(runs)) == |ResultsOf(runs)|
    ensures SumOfErrors(AllMetadata(runs)) == |ErrorsOf(runs)|
  {
    if runs != [] {
      var front := runs[..|runs| - 1];
      CountsAddUp(front);
      assert AllMetadata(runs)[..|AllMetadata(runs)| - 1] == AllMetadata(front);
    }
  }

  datatype Flag = Pass | Warn | Fail | NoFlag

  /** A result counts once, by the first of its flags. */
  function FlagOf(r: AnalyzerResult): Flag {
    if r.isPass then Pass else if r.isWarn then Warn else if r.isFail then Fail else NoFlag
  }

  function Count(results: seq<AnalyzerResult>, flag: Flag): nat {
    if results == [] then 0
    else Count(results[..|results| - 1], flag) + if FlagOf(results[|results| - 1]) == flag then 1 else 0
  }

  lemma {:induction false} FlagsAddUp(results: seq<AnalyzerResult>)
    ensures Count(results, Pass) + Count(results, Warn) + Count(results, Fail) + Count(results, NoFlag) == |results|
  {
    if results != [] {
      FlagsAddUp(results[..|results| - 1]);
    }
  }

  /** The confidences that count. */
  function Confidences(results: seq<AnalyzerResult>): (cs: seq<real>)
    ensures forall i :: 0 <= i < |cs| ==> cs[i] > 0.0
  {
    if results == [] then []
    else
      var front, last := Confidences(results[..|results| - 1]), results[|results| - 1].confidence;
      if last > 0.0 then front + [last] else front
  }

  function Mean(cs: seq<real>): real {
    if cs == [] then 0.0 else Sum(cs) / |cs| as real
  }

  lemma MeanIsBetween(cs: seq<real>, low: real, high: real)
    requires cs != [] && forall i :: 0 <= i < |cs| ==> low <= cs[i] <= high
    ensures low <= Mean(cs) <= high
  {
    SumIsBounded(cs, low, high);
    Quotient(Sum(cs), |cs| as real, low, high);
  }

  lemma Quotient(sum: real, n: real, low: real, high: real)
    requires n > 0.0 && low * n <= sum <= high * n
    ensures low <= sum / n <= high
  {
  }

  /** The available ones of the named agents, or the first name that nobody registered. */
  function AvailableAgents(names: seq<string>, agents: map<string, Agent>,
                           isAvailable: Agent -> bool): Outcome<seq<Agent>> {
    if names == [] then Ok([])
    else
      var last := names[|names| - 1];
      match AvailableAgents(names[..|names| - 1], agents, isAvailable)
      case Err(problem) => Err(problem)
      case Ok(front) =>
        if last !in agents then Err(NotRegistered(last))
        else if isAvailable(agents[last]) then Ok(front + [agents[last]])
        else Ok(front)
  }

  /** Some name is that of the agent. */
  predicate NamesAgent(names: seq<string>, agents: map<string, Agent>, agent: Agent) {
    exists i :: 0 <= i < |names| && names[i] in agents && agents[names[i]] == agent
  }

  /** Every named agent that is registered and available runs and no other does; a name that nobody
      registered is an error, whatever is available, and the first such name is reported. */
  lemma {:induction false} WhoRuns(names: seq<string>, agents: map<string, Agent>, isAvailable: Agent -> bool)
    ensures match AvailableAgents(names, agents, isAvailable)
            case Err(problem) =>
              exists i :: 0 <= i < |names| && names[i] !in agents && problem == NotRegistered(names[i])
                && forall j :: 0 <= j < i ==> names[j] in agents
            case Ok(list) =>
              && (forall i :: 0 <= i < |names| ==> names[i] in agents)
              && (forall agent :: agent in list <==> isAvailable(agent) && NamesAgent(names, agents, agent))
  {
    if names != [] {
      var front, last := names[..|names| - 1], names[|names| - 1];
      WhoRuns(front, agents, isAvailable);
      assert names[|names| - 1] == last && forall i :: 0 <= i < |front| ==> names[i] == front[i];
      forall agent
        ensures NamesAgent(names, agents, agent) <==>
                NamesAgent(front, agents, agent) || (last in agents && agents[last] == agent)
      {
        if i :| 0 <= i < |front| && front[i] in agents && agents[front[i]] == agent {
          assert names[i] == front[i];
        }
      }
    }
  }

  /** An agent runs once for each time it is named, behind those named before it. */
  lemma OneNameMore(names: seq<string>, name: string, agents: map<string, Agent>, isAvailable: Agent -> bool)
    requires AvailableAgents(names, agents, isAvailable).Ok? && name in agents
    ensures var before := AvailableAgents(names, agents, isAvailable).value;
            AvailableAgents(names + [name], agents, isAvailable) ==
            Ok(if isAvailable(agents[name]) then before + [agents[name]] else before)
  {
    var more := names + [name];
    assert more[..|more| - 1] == names && more[|more| - 1] == name;
  }

  /** A result counts as a pass if it passes, as a warning if it warns without passing, as a fail if it
      fails without either. */
  lemma CountsByFirstFlag(results: seq<AnalyzerResult>, r: AnalyzerResult)
    ensures Count(results + [r], Pass) == Count(results, Pass) + if r.isPass then 1 else 0
    ensures Count(results + [r], Warn) == Count(results, Warn) + if !r.isPass && r.isWarn then 1 else 0
    ensures Count(results + [r], Fail) == Count(results, Fail) + if !r.isPass && !r.isWarn && r.isFail then 1 else 0
    ensures Count([], Pass) == Count([], Warn) == Count([], Fail) == 0
  {
    assert (results + [r])[..|results|] == results;
  }

  /** Every result of the runs is one that the agent of some run gave, under that agent's name. */
  lemma {:induction false} ResultsAreNamed(runs: seq<Run>, r: AnalyzerResult)
    ensures r in ResultsOf(runs) <==>
            exists k, i :: ResultAt(runs, k, i) && runs[k].outcome.results[i].(agentName := runs[k].agent.name) == r
  {
    if runs != [] {
      var front, last := runs[..|runs| - 1], runs[|runs| - 1];
      ResultsAreNamed(front, r);
      forall k, i
        ensures k < |front| ==> (ResultAt(runs, k, i) <==> ResultAt(front, k, i))
      {
      }
      if last.outcome.Succeeded? {
        var named := Named(last.outcome.results, last.agent.name);
        forall i | 0 <= i < |named|
          ensures named[i] == last.outcome.results[i].(agentName := last.agent.name)
        {
        }
        if i :| 0 <= i < |named| && named[i] == r {
          assert ResultAt(runs, |runs| - 1, i);
        }
        if i :| ResultAt(runs, |runs| - 1, i) && last.outcome.results[i].(agentName := last.agent.name) == r {
          assert named[i] == r;
        }
      }
    }
  }

  /** And every error is that of a failed run, or one that a run gave besides its results. */
  lemma {:induction false} ErrorsAreOfRuns(runs: seq<Run>, e: AnalysisError)
    ensures e in ErrorsOf(runs) <==> exists k :: 0 <= k < |runs| && IsErrorOf(runs[k], e)
  {
    if runs != [] {
      var front, last := runs[..|runs| - 1], runs[|runs| - 1];
      ErrorsAreOfRuns(front, e);
      assert forall k :: 0 <= k < |front| ==> front[k] == runs[k];
      if last.outcome.Succeeded? {
        AgentErrorsAre(last.agent.name, last.outcome.errors, e);
      }
    }
  }

  predicate IsErrorOf(run: Run, e: AnalysisError) {
    && e.agent == run.agent.name
    && match run.outcome
       case Failed(error) => e.error == error && e.category == "agent_execution"
       case Succeeded(_, errors) => e.error in errors && e.category == "analyzer_execution"
  }

  lemma AgentErrorsAre(agent: string, errors: seq<string>, e: AnalysisError)
    ensures e in AgentErrors(agent, errors) <==>
            e.agent == agent && e.error in errors && e.category == "analyzer_execution"
  {
    var all := AgentErrors(agent, errors);
    assert forall i :: 0 <= i < |errors| ==> all[i] == AnalysisError(agent, errors[i], "analyzer_execution");
    if e.agent == agent && e.error in errors && e.category == "analyzer_execution" {
      var i :| 0 <= i < |errors| && errors[i] == e.error;
      assert all[i] == e;
    }
  }

  predicate ResultAt(runs: seq<Run>, k: int, i: int) {
    0 <= k < |runs| && runs[k].outcome.Succeeded? && 0 <= i < |runs[k].outcome.results|
  }

  /** The runs of the agents in order; analyze tells how the run at each place comes out. */
  function Runs(agents: seq<Agent>, specs: seq<string>,
                analyze: (nat, Agent, seq<string>) -> AgentOutcome): (runs: seq<Run>)
    ensures |runs| == |agents|
    ensures forall i :: 0 <= i < |runs| ==>
              runs[i].agent == agents[i] && runs[i].outcome == analyze(i, agents[i], specs)
  {
    seq(|agents|, i requires 0 <= i < |agents| => Run(agents[i], analyze(i, agents[i], specs)))
  }

  /** The names of the agents that ran. */
  function Used(runs: seq<Run>): (names: seq<string>)
    ensures |names| == |runs| && forall i :: 0 <= i < |runs| ==> names[i] == runs[i].agent.name
  {
    seq(|runs|, i requires 0 <= i < |runs| => runs[i].agent.name)
  }

  function AnalysisOf(runs: seq<Run>, failures: seq<AnalyzerResult>): Analysis {
    var results, errors := ResultsOf(runs) + failures, ErrorsOf(runs);
    Analysis(results, AllMetadata(runs), errors,
             Summary(|results|, Count(results, Pass), Count(results, Warn), Count(results, Fail), |errors|,
                     Mean(Confidences(results)), Used(runs)))
  }

  /** The failed conversions stand behind the results of the runs, and the summary is of them all. */
  lemma SummaryIsOfAll(runs: seq<Run>, failures: seq<AnalyzerResult>)
    ensures var a := AnalysisOf(runs, failures);
            && |a.results| == |ResultsOf(runs)| + |failures| && ResultsOf(runs) <= a.results
            && (forall i :: 0 <= i < |failures| ==> a.results[|ResultsOf(runs)| + i] == failures[i])
            && a.summary.totalAnalyzers == |a.results| && a.summary.errorCount == |a.errors|
            && a.summary.passCount == Count(a.results, Pass) && a.summary.warnCount == Count(a.results, Warn)
            && a.summary.failCount == Count(a.results, Fail)
            && (forall i :: 0 <= i < |a.summary.agentsUsed| ==> a.summary.agentsUsed[i] == runs[i].agent.name)
            && a.errors == ErrorsOf(runs) && a.agents == AllMetadata(runs)
  {
  }

  /** The books of an analysis balance: every result is one of an agent or of a failed conversion,
      every error is one of an agent, no result counts twice. */
  lemma BooksBalance(runs: seq<Run>, n: nat, convert: Conversion)
    ensures var a := AnalysisOf(runs, Failures(n, convert));
            && a.summary.totalAnalyzers == SumOfResults(a.agents) + |Failures(n, convert)|
            && a.summary.errorCount == SumOfErrors(a.agents)
            && a.summary.passCount + a.summary.warnCount + a.summary.failCount <= a.summary.totalAnalyzers
            && a.summary.failCount >= n - |Specs(n, convert)|
            && |a.agents| == |a.summary.agentsUsed| == |runs|
  {
    var failures := Failures(n, convert);
    var results := ResultsOf(runs) + failures;
    CountsAddUp(runs);
    FlagsAddUp(results);
    NoAnalyzerIsLost(n, convert);
    FailuresFail(ResultsOf(runs), n, convert);
    MetadataLength(runs);
  }

  /** Each run has its own entry: its agent's name, and how many results and errors it gave. */
  lemma {:induction false} MetadataAre(runs: seq<Run>, i: nat)
    requires i < |runs|
    ensures |AllMetadata(runs)| == |runs| && AllMetadata(runs)[i].name == runs[i].agent.name
    ensures match runs[i].outcome
            case Failed(_) => AllMetadata(runs)[i].resultCount == 0 && AllMetadata(runs)[i].errorCount == 1
            case Succeeded(results, errors) =>
              AllMetadata(runs)[i].resultCount == |results| && AllMetadata(runs)[i].errorCount == |errors|
  {
    MetadataLength(runs);
    MetadataLength(runs[..|runs| - 1]);
    if i < |runs| - 1 {
      MetadataAre(runs[..|runs| - 1], i);
    }
  }

  /** The specifications are those of the analyzers that can be converted, in their order, the failures
      those of the others, each with its place in its title. */
  lemma ConversionsAre(n: nat, convert: Conversion)
    ensures Specs(0, convert) == [] && Failures(0, convert) == []
    ensures Specs(n + 1, convert) ==
            if convert(n).Some? then Specs(n, convert) + [convert(n).value] else Specs(n, convert)
    ensures convert(n).Some? ==> Failures(n + 1, convert) == Failures(n, convert)
    ensures convert(n).None? ==>
              && |Failures(n + 1, convert)| == |Failures(n, convert)| + 1
              && Failures(n, convert) <= Failures(n + 1, convert)
              && var failure := Failures(n + 1, convert)[|Failures(n, convert)|];
                 && failure.isFail && failure.confidence == 1.0 && failure.agentName == "analyzer-converter"
                 && failure.title == "Custom Analyzer " + PrintDigits(n) + " - Conversion Failed"
  {
  }

  /** The confidences are those that are positive, in order ... */
  lemma ConfidencesMore(results: seq<AnalyzerResult>, r: AnalyzerResult)
    ensures Confidences([]) == []
    ensures Confidences(results + [r]) ==
            if r.confidence > 0.0 then Confidences(results) + [r.confidence] else Confidences(results)
  {
    assert (results + [r])[..|results|] == results;
  }

  /** ... and their mean times their number is their sum. */
  lemma MeanTimesNumber(cs: seq<real>)
    ensures Mean(cs) * |cs| as real == Sum(cs)
  {
    if cs != [] {
      Dividing(Sum(cs), |cs| as real);
    }
  }

  lemma Dividing(sum: real, n: real)
    requires n != 0.0
    ensures sum / n * n == sum
  {
  }

  /** The confidence is that of some result, and positive. */
  predicate IsConfidence(results: seq<AnalyzerResult>, c: real) {
    c > 0.0 && exists i :: 0 <= i < |results| && results[i].confidence == c
  }

  lemma {:induction false} ConfidencesAreOfResults(results: seq<AnalyzerResult>, c: real)
    ensures c in Confidences(results) <==> IsConfidence(results, c)
  {
    if results != [] {
      var front := results[..|results| - 1];
      ConfidencesAreOfResults(front, c);
      if i :| 0 <= i < |front| && front[i].confidence == c {
        assert results[i].confidence == c;
      }
      if i :| 0 <= i < |results| && results[i].confidence == c {
        assert i < |front| ==> front[i].confidence == c;
      }
    }
  }

  /** The confidence of an analysis lies between the least and the greatest positive confidence of
      its results, and is zero when none is positive. */
  lemma ConfidenceIsBetween(runs: seq<Run>, failures: seq<AnalyzerResult>)
    ensures var a := AnalysisOf(runs, failures);
            if exists c :: IsConfidence(a.results, c) then
              exists low, high :: IsConfidence(a.results, low) && IsConfidence(a.results, high)
                && (forall c :: IsConfidence(a.results, c) ==> low <= c <= high)
                && low <= a.summary.confidence <= high
            else a.summary.confidence == 0.0
  {
    var a := AnalysisOf(runs, failures);
    var cs := Confidences(a.results);
    forall c
      ensures c in cs <==> IsConfidence(a.results, c)
    {
      ConfidencesAreOfResults(a.results, c);
    }
    if cs != [] {
      var low, high := Extremes(cs);
      MeanIsBetween(cs, low, high);
      assert IsConfidence(a.results, low) && IsConfidence(a.results, high);
    }
    assert cs != [] ==> cs[0] in cs;
  }

  lemma {:induction false} Extremes(cs: seq<real>) returns (low: real, high: real)
    requires cs != []
    ensures low in cs && high in cs && forall i :: 0 <= i < |cs| ==> low <= cs[i] <= high
  {
    low, high := cs[0], cs[0];
    if |cs| > 1 {
      low, high := Extremes(cs[1..]);
      low := if cs[0] < low then cs[0] else low;
      high := if cs[0] > high then cs[0] else high;
    }
  }

  lemma {:induction false} MetadataLength(runs: seq<Run>)
    ensures |AllMetadata(runs)| == |runs|
  {
    if runs != [] {
      MetadataLength(runs[..|runs| - 1]);
    }
  }

  lemma FailuresFail(before: seq<AnalyzerResult>, n: nat, convert: Conversion)
    ensures Count(before + Failures(n, convert), Fail) == Count(before, Fail) + |Failures(n, convert)|
  {
    FailuresAreFails(n, convert);
    FailsCount(before, Failures(n, convert));
  }

  lemma {:induction false} FailuresAreFails(n: nat, convert: Conversion)
    ensures forall i :: 0 <= i < |Failures(n, convert)| ==> FlagOf(Failures(n, convert)[i]) == Fail
  {
    if n > 0 {
      FailuresAreFails(n - 1, convert);
    }
  }

  lemma {:induction false} FailsCount(before: seq<AnalyzerResult>, fails: seq<AnalyzerResult>)
    requires forall i :: 0 <= i < |fails| ==> FlagOf(fails[i]) == Fail
    ensures Count(before + fails, Fail) == Count(before, Fail) + |fails|
  {
    if fails == [] {
      assert before + fails == before;
    } else {
      var front, last := fails[..|fails| - 1], fails[|fails| - 1];
      FailsCount(before, front);
      FailCounts(before + front, last);
      assert before + fails == before + front + [last];
    }
  }

  lemma FailCounts(results: seq<AnalyzerResult>, failure: AnalyzerResult)
    requires FlagOf(failure) == Fail
    ensures Count(results + [failure], Fail) == Count(results, Fail) + 1
  {
    assert (results + [failure])[..|results|] == results;
  }

  class AnalysisEngine {
    var agents: map<string, Agent>
    var defaultAgents: seq<string>

    constructor ()
      ensures agents == map[] && defaultAgents == ["local"]
    {
      agents := map[];
      defaultAgents := ["local"];
    }

    method RegisterAgent(name: string, agent: Option<Agent>) returns (problem: Option<RegisterProblem>)
      modifies this`agents
      ensures agents == Registered(old(agents), name, agent)
      ensures problem == if name == "" then Some(EmptyName)
                         else if agent.None? then Some(NilAgent)
                         else if name in old(agents) then Some(AlreadyRegistered)
                         else None
    {
      if name == "" {
        return Some(EmptyName);
      }
      if agent.None? {
        return Some(NilAgent);
      }
      if name in agents {
        return Some(AlreadyRegistered);
      }
      agents := agents[name := agent.value];
      return None;
    }

    /** customAnalyzers: how many analyzers there are to convert. */
    method Analyze(bundle: bool, names: seq<string>, customAnalyzers: nat, convert: Conversion,
                   isAvailable: Agent -> bool, analyze: (nat, Agent, seq<string>) -> AgentOutcome)
      returns (r: Outcome<Analysis>)
      ensures r == if !bundle then Err(NoBundle)
                   else
                     match AvailableAgents(if names == [] then defaultAgents else names, agents, isAvailable)
                     case Err(problem) => Err(problem)
                     case Ok(available) =>
                       if available == [] then Err(NoneAvailable)
                       else Ok(AnalysisOf(Runs(available, Specs(customAnalyzers, convert), analyze),
                                          Failures(customAnalyzers, convert)))
    {
      if !bundle {
        return Err(NoBundle);
      }
      var agentNames := if names == [] then defaultAgents else names;
      var available: seq<Agent> := [];
      for i := 0 to |agentNames|
        invariant AvailableAgents(agentNames[..i], agents, isAvailable) == Ok(available)
      {
        assert agentNames[..i + 1][..i] == agentNames[..i];
        if agentNames[i] !in agents {
          FirstUnregistered(agentNames, i + 1, agents, isAvailable);
          return Err(NotRegistered(agentNames[i]));
        }
        if isAvailable(agents[agentNames[i]]) {
          available := available + [agents[agentNames[i]]];
        }
      }
      assert agentNames[..|agentNames|] == agentNames;
      if available == [] {
        return Err(NoneAvailable);
      }

      var specs, failures := [], [];
      for i := 0 to customAnalyzers
        invariant specs == Specs(i, convert) && failures == Failures(i, convert)
      {
        var spec := convert(i);
        if spec.Some? {
          specs := specs + [spec.value];
        } else {
          failures := failures + [Failure(i)];
        }
      }

      var analysis := RunAgents(available, specs, analyze);
      var results := analysis.results + failures;
      var summary := CalculateSummary(results, |analysis.errors|, analysis.summary.agentsUsed);
      return Ok(analysis.(results := results, summary := summary));
    }
  }

  lemma {:induction false} FirstUnregistered(names: seq<string>, i: nat, agents: map<string, Agent>,
                                             isAvailable: Agent -> bool)
    requires i <= |names| && AvailableAgents(names[..i], agents, isAvailable).Err?
    ensures AvailableAgents(names, agents, isAvailable) == AvailableAgents(names[..i], agents, isAvailable)
    decreases |names|
  {
    if i == |names| {
      assert names[..i] == names;
    } else {
      var front := names[..|names| - 1];
      assert front[..i] == names[..i];
      FirstUnregistered(front, i, agents, isAvailable);
    }
  }

  /** The loop of Analyze over the available agents; the counts of the summary are still to come. */
  method RunAgents(available: seq<Agent>, specs: seq<string>, analyze: (nat, Agent, seq<string>) -> AgentOutcome)
    returns (a: Analysis)
    ensures var runs := Runs(available, specs, analyze);
            && a.results == ResultsOf(runs) && a.errors == ErrorsOf(runs)
            && a.agents == AllMetadata(runs) && a.summary.agentsUsed == Used(runs)
  {
    ghost var runs := Runs(available, specs, analyze);
    var results, errors, agents, used := [], [], [], [];
    for i := 0 to |available|
      invariant results == ResultsOf(runs[..i]) && errors == ErrorsOf(runs[..i])
      invariant agents == AllMetadata(runs[..i]) && used == Used(runs[..i])
    {
      assert runs[..i + 1][..i] == runs[..i];
      var agent := available[i];
      var outcome := analyze(i, agent, specs);
      match outcome {
        case Failed(error) =>
          agents := agents + [AgentMetadata(agent.name, 0, 1)];
          errors := errors + [AnalysisError(agent.name, error, "agent_execution")];
        case Succeeded(agentResults, agentErrors) =>
          agents := agents + [AgentMetadata(agent.name, |agentResults|, |agentErrors|)];
          results := results + Named(agentResults, agent.name);
          errors := errors + AgentErrors(agent.name, agentErrors);
      }
      used := used + [agent.name];
    }
    assert runs[..|available|] == runs;
    a := Analysis(results, agents, errors, Summary(0, 0, 0, 0, 0, 0.0, used));
  }

  method CalculateSummary(results: seq<AnalyzerResult>, errorCount: nat, agentsUsed: seq<string>) returns (s: Summary)
    ensures s == Summary(|results|, Count(results, Pass), Count(results, Warn), Count(results, Fail), errorCount,
                         Mean(Confidences(results)), agentsUsed)
  {
    var pass, warn, fail: nat, confidenceSum, confidenceCount: nat := 0, 0, 0, 0.0, 0;
    for i := 0 to |results|
      invariant pass == Count(results[..i], Pass) && warn == Count(results[..i], Warn)
      invariant fail == Count(results[..i], Fail)
      invariant confidenceSum == Sum(Confidences(results[..i])) && confidenceCount == |Confidences(results[..i])|
    {
      assert results[..i + 1][..i] == results[..i];
      var result := results[i];
      if result.isPass {
        pass := pass + 1;
      } else if result.isWarn {
        warn := warn + 1;
      } else if result.isFail {
        fail := fail + 1;
      }
      if result.confidence > 0.0 {
        SumMore(Confidences(results[..i]), result.confidence);
        confidenceSum := confidenceSum + result.confidence;
        confidenceCount := confidenceCount + 1;
      }
    }
    assert results[..|results|] == results;
    var confidence := if confidenceCount > 0 then confidenceSum / confidenceCount as real else 0.0;
    s := Summary(|results|, pass, warn, fail, errorCount, confidence, agentsUsed);
  }
}
