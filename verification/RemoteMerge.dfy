/** Merging what remote collectors bring back: CollectRemote in pkg/collect/collect.go, and
    runRemote and mapCollectorResultToOutput in pkg/collect/host_collector.go. */
module RemoteMerge {
  import opened Options

  /** The bytes reported for a node, by what json.Unmarshal into a map of strings makes of
      them: a map, a nil map for "null", or an error. */
  datatype Blob = Object(files: map<string, string>) | JsonNull | Garbage(id: nat)

  /** What is stored for a node. */
  datatype NodeData = Absent | Has(blob: Blob) | Crashed

  datatype MergeError = CannotReadExisting | CannotReadNew

  /** Merging new bytes into those stored. The existing ones are decoded first. Adding a file to
      the nil map that "null" decodes to is a run-time panic. */
  function Combine(cur: Blob, added: Blob): NodeData {
    match (cur, added)
    case (Garbage(_), _) => Has(cur)
    case (_, Garbage(_)) => Has(cur)
    case (Object(a), Object(b)) => Has(Object(a + b))
    case (Object(a), JsonNull) => Has(cur)
    case (JsonNull, JsonNull) => Has(cur)
    case (JsonNull, Object(b)) => if b == map[] then Has(cur) else Crashed
  }

  /** The error that is reported on the way, if any. */
  predicate Reports(cur: Blob, added: Blob, error: MergeError) {
    if cur.Garbage? then error == CannotReadExisting else added.Garbage? && error == CannotReadNew
  }

  /** One collector's run: an error, or bytes for each of its nodes. */
  datatype Run = RunFailed | Ran(nodes: map<string, Blob>)

  function Add(data: NodeData, run: Run, node: string): NodeData {
    if run.RunFailed? || node !in run.nodes then data
    else
      match data
      case Absent => Has(run.nodes[node])
      case Has(cur) => Combine(cur, run.nodes[node])
      case Crashed => Crashed
  }

  /** What is stored for a node after the runs, in order. */
  function After(runs: seq<Run>, node: string): NodeData {
    if runs == [] then Absent else Add(After(runs[..|runs| - 1], node), runs[|runs| - 1], node)
  }

  datatype Status = Running | Failed | Completed

  datatype Event =
    | Progress(collector: nat, status: Status, completed: nat, total: nat)
    | RunError(collector: nat)
    | NodeError(collector: nat, node: string, error: MergeError)

  function ProgressOf(events: seq<Event>): seq<Event> {
    if events == [] then []
    else
      var last := events[|events| - 1];
      ProgressOf(events[..|events| - 1]) + if last.NodeError? then [] else [last]
  }

  lemma ProgressOfAppend(events: seq<Event>, event: Event)
    ensures ProgressOf(events + [event]) == ProgressOf(events) + if event.NodeError? then [] else [event]
  {
    assert (events + [event])[..|events|] == events;
  }

  /** The events of the first n collectors, errors about single nodes aside: each one starts and
      is then completed, or fails with its error. */
  function ExpectedProgress(runs: seq<Run>, n: nat): seq<Event>
    requires n <= |runs|
  {
    if n == 0 then []
    else
      ExpectedProgress(runs, n - 1) + [Progress(n - 1, Running, n - 1, |runs|)]
      + if runs[n - 1].RunFailed? then [RunError(n - 1), Progress(n - 1, Failed, n, |runs|)]
        else [Progress(n - 1, Completed, n, |runs|)]
  }

  /** Which events there are: every collector starts with as many completed as come before it, and is
      then completed, with itself, exactly when it ran, or fails after its error exactly when it did. */
  lemma {:induction false} ProgressIsComplete(runs: seq<Run>, n: nat, event: Event)
    requires n <= |runs|
    ensures event in ExpectedProgress(runs, n) <==>
            match event
            case Progress(i, Running, completed, total) => i < n && completed == i && total == |runs|
            case Progress(i, Completed, completed, total) =>
              i < n && runs[i].Ran? && completed == i + 1 && total == |runs|
            case Progress(i, Failed, completed, total) =>
              i < n && runs[i].RunFailed? && completed == i + 1 && total == |runs|
            case RunError(i) => i < n && runs[i].RunFailed?
            case NodeError(_, _, _) => false
  {
    if n > 0 {
      ProgressIsComplete(runs, n - 1, event);
    }
  }

  function CollectorOf(event: Event): nat {
    match event
    case Progress(i, _, _, _) => i
    case RunError(i) => i
    case NodeError(i, _, _) => i
  }

  /** And in which order: one collector after the other, started first, completed or failed last. */
  lemma {:induction false} ProgressIsOrdered(runs: seq<Run>, n: nat, a: nat, b: nat)
    requires n <= |runs| && a < b < |ExpectedProgress(runs, n)|
    ensures var first, second := ExpectedProgress(runs, n)[a], ExpectedProgress(runs, n)[b];
            && CollectorOf(first) <= CollectorOf(second) < n
            && (second.Progress? && second.status == Running ==> CollectorOf(first) < CollectorOf(second))
            && (first.Progress? && first.status != Running ==> CollectorOf(first) < CollectorOf(second))
  {
    var front := ExpectedProgress(runs, n - 1);
    if b < |front| {
      ProgressIsOrdered(runs, n - 1, a, b);
    } else if a < |front| {
      ProgressIsComplete(runs, n - 1, front[a]);
      assert front[a] in front;
    }
  }

  /** The map stored so far says what After says. */
  ghost predicate Stores(data: map<string, Blob>, runs: seq<Run>) {
    forall node: string ::
      After(runs, node) == if node in data then Has(data[node]) else Absent
  }

  /** Run i reports a node whose entry it cannot be merged into, and this is why. */
  predicate NodeFails(runs: seq<Run>, i: nat, node: string, error: MergeError)
    requires i < |runs|
  {
    var data := After(runs[..i], node);
    data.Has? && runs[i].Ran? && node in runs[i].nodes && Reports(data.blob, runs[i].nodes[node], error)
  }

  datatype Collected = Done(data: map<string, Blob>, events: seq<Event>) | Panic

  /** The loop of CollectRemote over its collectors. A node's entry is a fold of Combine over
      the runs that report the node, in collector order. It panics exactly when the first report of
      some node is "null" and a later one holds a file. */
  method CollectRemote(runs: seq<Run>) returns (r: Collected)
    ensures r.Panic? <==> exists node: string :: FileAfterNull(runs, node)
    ensures r.Done? ==> Stores(r.data, runs) && ProgressOf(r.events) == ExpectedProgress(runs, |runs|)
    ensures r.Done? ==> forall i: nat, node, error ::
              NodeError(i, node, error) in r.events <==> i < |runs| && NodeFails(runs, i, node, error)
  {
    var data: map<string, Blob> := map[];
    var events: seq<Event> := [];
    for i := 0 to |runs|
      invariant Stores(data, runs[..i])
      invariant ProgressOf(events) == ExpectedProgress(runs, i)
      invariant forall k: nat, node, error ::
                  NodeError(k, node, error) in events <==> k < i && NodeFails(runs, k, node, error)
    {
      ghost var before := data;
      assert runs[..i + 1][..i] == runs[..i];
      ProgressOfAppend(events, Progress(i, Running, i, |runs|));
      events := events + [Progress(i, Running, i, |runs|)];
      if runs[i].RunFailed? {
        ProgressOfAppend(events, RunError(i));
        events := events + [RunError(i)];
        ProgressOfAppend(events, Progress(i, Failed, i + 1, |runs|));
        events := events + [Progress(i, Failed, i + 1, |runs|)];
      } else {
        ProgressOfAppend(events, Progress(i, Completed, i + 1, |runs|));
        events := events + [Progress(i, Completed, i + 1, |runs|)];
        var crashed;
        data, events, crashed := MergeRun(data, events, i, runs[i]);
        if crashed {
          ghost var node :|
            node in runs[i].nodes && node in before && Combine(before[node], runs[i].nodes[node]).Crashed?;
          assert After(runs[..i], node) == Has(before[node]);
          assert After(runs[..i + 1], node).Crashed?;
          CrashStays(runs, i + 1, node);
          PanicsIff(runs, node);
          return Panic;
        }
        forall node: string
          ensures After(runs[..i + 1], node) == if node in data then Has(data[node]) else Absent
        {
          assert After(runs[..i], node) == if node in before then Has(before[node]) else Absent;
        }
      }
    }
    assert runs[..|runs|] == runs;
    forall node: string
      ensures !FileAfterNull(runs, node)
    {
      PanicsIff(runs, node);
    }
    return Done(data, events);
  }

  /** The loop over one collector's result, in any order of its nodes. */
  method MergeRun(data: map<string, Blob>, events: seq<Event>, i: nat, run: Run)
    returns (more: map<string, Blob>, reported: seq<Event>, crashed: bool)
    requires run.Ran?
    ensures crashed <==> exists node ::
              node in run.nodes && node in data && Combine(data[node], run.nodes[node]).Crashed?
    ensures !crashed ==>
              && more.Keys == data.Keys + run.nodes.Keys
              && (forall node :: node in more ==>
                    Add(if node in data then Has(data[node]) else Absent, run, node) == Has(more[node]))
    ensures ProgressOf(reported) == ProgressOf(events)
    ensures !crashed ==> forall k: nat, node, error :: NodeError(k, node, error) in reported <==>
              NodeError(k, node, error) in events ||
              (k == i && node in run.nodes && node in data && Reports(data[node], run.nodes[node], error))
  {
    more, reported := data, events;
    var left := run.nodes.Keys;
    while left != {}
      invariant left <= run.nodes.Keys
      invariant more.Keys == data.Keys + (run.nodes.Keys - left)
      invariant forall node :: node in more && (node in left || node !in run.nodes) ==> more[node] == data[node]
      invariant forall node :: node in run.nodes && node !in left ==>
                  Add(if node in data then Has(data[node]) else Absent, run, node) == Has(more[node])
      invariant ProgressOf(reported) == ProgressOf(events)
      invariant forall k: nat, node, error :: NodeError(k, node, error) in reported <==>
                  NodeError(k, node, error) in events ||
                  (k == i && node in run.nodes && node !in left && node in data &&
                   Reports(data[node], run.nodes[node], error))
      decreases left
    {
      var node :| node in left;
      left := left - {node};
      if node in more {
        var combined := Combine(more[node], run.nodes[node]);
        if combined.Crashed? {
          return more, reported, true;
        }
        if more[node].Garbage? {
          ProgressOfAppend(reported, NodeError(i, node, CannotReadExisting));
          reported := reported + [NodeError(i, node, CannotReadExisting)];
        } else if run.nodes[node].Garbage? {
          ProgressOfAppend(reported, NodeError(i, node, CannotReadNew));
          reported := reported + [NodeError(i, node, CannotReadNew)];
        }
        more := more[node := combined.blob];
      } else {
        more := more[node := run.nodes[node]];
      }
    }
    return more, reported, false;
  }

  lemma {:induction false} CrashStays(runs: seq<Run>, n: nat, node: string)
    requires n <= |runs| && After(runs[..n], node).Crashed?
    ensures After(runs, node).Crashed?
    decreases |runs|
  {
    if n == |runs| {
      assert runs[..n] == runs;
    } else {
      var front := runs[..|runs| - 1];
      assert front[..n] == runs[..n];
      CrashStays(front, n, node);
    }
  }

  /** All bytes reported decode as objects. */
  predicate AllObjects(runs: seq<Run>) {
    forall i, node :: 0 <= i < |runs| && runs[i].Ran? && node in runs[i].nodes ==> runs[i].nodes[node].Object?
  }

  /** Run i reported this file of this node. */
  predicate HasFile(runs: seq<Run>, i: nat, node: string, file: string) {
    && i < |runs| && runs[i].Ran? && node in runs[i].nodes
    && runs[i].nodes[node].Object? && file in runs[i].nodes[node].files
  }

  /** Run i is the last one that reported it. */
  ghost predicate HasLastVersion(runs: seq<Run>, i: nat, node: string, file: string) {
    HasFile(runs, i, node, file) && forall k: nat :: i < k ==> !HasFile(runs, k, node, file)
  }

  /** When everything decodes nothing crashes, and a node ends up with the files that some run
      reported for it, each in the version of the last run that did. */
  lemma {:induction false} LastVersionOfEveryFile(runs: seq<Run>, node: string, file: string)
    requires AllObjects(runs)
    ensures var data := After(runs, node);
            && (data.Absent? <==> forall i :: 0 <= i < |runs| && runs[i].Ran? ==> node !in runs[i].nodes)
            && (data.Absent? || (data.Has? && data.blob.Object?))
            && (data.Has? && file in data.blob.files <==> exists i: nat :: HasLastVersion(runs, i, node, file))
            && (forall i: nat :: HasLastVersion(runs, i, node, file) ==>
                  data.Has? && file in data.blob.files && data.blob.files[file] == runs[i].nodes[node].files[file])
  {
    if runs == [] {
    } else {
      var n := |runs| - 1;
      var front := runs[..n];
      LastVersionOfEveryFile(front, node, file);
      VersionsBefore(runs, node, file);
      assert HasFile(runs, n, node, file) ==> HasLastVersion(runs, n, node, file);
      NodeBefore(runs, node);
    }
  }

  lemma VersionsBefore(runs: seq<Run>, node: string, file: string)
    requires runs != []
    ensures var n := |runs| - 1;
            if HasFile(runs, n, node, file) then
              forall i: nat :: HasLastVersion(runs, i, node, file) <==> i == n
            else
              forall i: nat :: HasLastVersion(runs, i, node, file) <==> HasLastVersion(runs[..n], i, node, file)
  {
    var n := |runs| - 1;
    assert forall i: nat :: i < n ==> (HasFile(runs, i, node, file) <==> HasFile(runs[..n], i, node, file));
    assert forall i: nat :: n < i ==> !HasFile(runs, i, node, file);
    assert forall i: nat :: n <= i ==> !HasFile(runs[..n], i, node, file);
  }

  lemma NodeBefore(runs: seq<Run>, node: string)
    requires runs != []
    ensures var n := |runs| - 1;
            (forall i :: 0 <= i < |runs| && runs[i].Ran? ==> node !in runs[i].nodes) <==>
            (forall i :: 0 <= i < n && runs[..n][i].Ran? ==> node !in runs[..n][i].nodes) &&
            (runs[n].Ran? ==> node !in runs[n].nodes)
  {
    assert forall i :: 0 <= i < |runs| - 1 ==> runs[..|runs| - 1][i] == runs[i];
  }

  /** Run i reported the node. */
  predicate ReportsNode(runs: seq<Run>, i: nat, node: string) {
    i < |runs| && runs[i].Ran? && node in runs[i].nodes
  }

  /** Run i is the first to report the node, and reports "null". */
  predicate ReportsNullFirst(runs: seq<Run>, i: nat, node: string) {
    && ReportsNode(runs, i, node) && runs[i].nodes[node] == JsonNull
    && forall k: nat :: k < i ==> !ReportsNode(runs, k, node)
  }

  /** Run j reports a file of the node. */
  predicate ReportsAFile(runs: seq<Run>, j: nat, node: string) {
    ReportsNode(runs, j, node) && runs[j].nodes[node].Object? && runs[j].nodes[node].files != map[]
  }

  ghost predicate NullFirst(runs: seq<Run>, node: string) {
    exists i: nat :: ReportsNullFirst(runs, i, node)
  }

  /** The first report of the node is "null" and a later one holds a file. */
  ghost predicate FileAfterNull(runs: seq<Run>, node: string) {
    exists i: nat, j: nat :: i < j && ReportsNullFirst(runs, i, node) && ReportsAFile(runs, j, node)
  }

  /** The merge panics over a node exactly when its first report is "null" and a later one holds a
      file, however many collectors fail or report other things before, between and after. */
  lemma {:induction false} PanicsIff(runs: seq<Run>, node: string)
    ensures After(runs, node).Crashed? <==> FileAfterNull(runs, node)
    ensures After(runs, node) == Has(JsonNull) <==> NullFirst(runs, node) && !FileAfterNull(runs, node)
    ensures After(runs, node).Absent? <==> forall i: nat :: !ReportsNode(runs, i, node)
  {
    if runs != [] {
      PanicsIff(runs[..|runs| - 1], node);
      ReportsBefore(runs, node);
    }
  }

  /** The reports of all runs are those of the runs but the last, and that of the last. */
  lemma ReportsBefore(runs: seq<Run>, node: string)
    requires runs != []
    ensures var front, n := runs[..|runs| - 1], |runs| - 1;
            && ((forall i: nat :: !ReportsNode(runs, i, node)) <==>
                (forall i: nat :: !ReportsNode(front, i, node)) && !ReportsNode(runs, n, node))
            && (NullFirst(runs, node) <==> NullFirst(front, node) || ReportsNullFirst(runs, n, node))
            && (ReportsNullFirst(runs, n, node) <==>
                (forall i: nat :: !ReportsNode(front, i, node))
                && ReportsNode(runs, n, node) && runs[n].nodes[node] == JsonNull)
            && (FileAfterNull(runs, node) <==>
                FileAfterNull(front, node) || (NullFirst(front, node) && ReportsAFile(runs, n, node)))
  {
    var front, n := runs[..|runs| - 1], |runs| - 1;
    forall i: nat | i < n
      ensures ReportsNode(runs, i, node) <==> ReportsNode(front, i, node)
      ensures ReportsAFile(runs, i, node) <==> ReportsAFile(front, i, node)
    {
      assert front[i] == runs[i];
    }
    forall i: nat | i < n
      ensures ReportsNullFirst(runs, i, node) <==> ReportsNullFirst(front, i, node)
    {
      assert front[i] == runs[i];
    }
  }

  /** "null" followed by a file panics, whatever other collectors report before and after. */
  lemma NullThenFilePanics(before: seq<Run>, nodes: map<string, Blob>, more: map<string, Blob>, after: seq<Run>,
                           node: string)
    requires After(before, node).Absent?
    requires node in nodes && nodes[node] == JsonNull
    requires node in more && more[node].Object? && more[node].files != map[]
    ensures After(before + [Ran(nodes), Ran(more)] + after, node).Crashed?
  {
    var runs, n := before + [Ran(nodes), Ran(more)] + after, |before|;
    PanicsIff(before, node);
    forall k: nat | k < n
      ensures !ReportsNode(runs, k, node)
    {
      assert runs[k] == before[k] && !ReportsNode(before, k, node);
    }
    assert runs[n] == Ran(nodes) && runs[n + 1] == Ran(more);
    assert ReportsNullFirst(runs, n, node) && ReportsAFile(runs, n + 1, node);
    PanicsIff(runs, node);
  }

  /** What the first run that reports the node reports. */
  function FirstReport(runs: seq<Run>, node: string): Option<Blob> {
    if runs == [] then None
    else
      var last := runs[|runs| - 1];
      match FirstReport(runs[..|runs| - 1], node)
      case Some(blob) => Some(blob)
      case None => if last.Ran? && node in last.nodes then Some(last.nodes[node]) else None
  }

  lemma {:induction false} FirstReportIsFirst(runs: seq<Run>, node: string)
    ensures match FirstReport(runs, node)
            case None => forall i: nat :: !ReportsNode(runs, i, node)
            case Some(blob) =>
              exists i: nat :: ReportsNode(runs, i, node) && runs[i].nodes[node] == blob
                && forall k: nat :: k < i ==> !ReportsNode(runs, k, node)
  {
    if runs != [] {
      var front, n := runs[..|runs| - 1], |runs| - 1;
      FirstReportIsFirst(front, node);
      assert forall i: nat :: i < n ==> front[i] == runs[i];
      assert forall i: nat :: i < n ==> (ReportsNode(front, i, node) <==> ReportsNode(runs, i, node));
      if FirstReport(front, node).None? && FirstReport(runs, node).Some? {
        assert ReportsNode(runs, n, node);
      }
    }
  }

  /** A node's entry is of the kind of its first report: bytes that cannot be read stay as they are
      whatever follows, and "null" stays "null" until it panics. */
  lemma {:induction false} FirstReportDecides(runs: seq<Run>, node: string)
    ensures match FirstReport(runs, node)
            case None => After(runs, node) == Absent
            case Some(Garbage(id)) => After(runs, node) == Has(Garbage(id))
            case Some(JsonNull) => After(runs, node) == Has(JsonNull) || After(runs, node) == Crashed
            case Some(Object(_)) => After(runs, node).Has? && After(runs, node).blob.Object?
  {
    if runs != [] {
      FirstReportDecides(runs[..|runs| - 1], node);
    }
  }

  /** If it is an object, the entry holds exactly the files that objects reported for the node, each in
      its last version; reports that cannot be read, or are "null", change nothing. */
  lemma {:induction false} LastVersionOfReadable(runs: seq<Run>, node: string, file: string)
    requires FirstReport(runs, node).Some? && FirstReport(runs, node).value.Object?
    ensures var data := After(runs, node);
            && data.Has? && data.blob.Object?
            && (file in data.blob.files <==> exists i: nat :: HasLastVersion(runs, i, node, file))
            && (forall i: nat :: HasLastVersion(runs, i, node, file) ==>
                  file in data.blob.files && data.blob.files[file] == runs[i].nodes[node].files[file])
  {
    var n := |runs| - 1;
    var front := runs[..n];
    FirstReportDecides(runs, node);
    FirstReportDecides(front, node);
    VersionsBefore(runs, node, file);
    assert HasFile(runs, n, node, file) ==> HasLastVersion(runs, n, node, file);
    if FirstReport(front, node).Some? {
      LastVersionOfReadable(front, node, file);
    } else {
      FirstReportIsFirst(front, node);
      forall i: nat
        ensures !HasLastVersion(front, i, node, file)
      {
        assert !ReportsNode(front, i, node);
      }
    }
  }

  /** An error about a node is reported exactly when a run reports the node again and its first report
      could not be read, or else this one cannot. */
  lemma NodeFailsIff(runs: seq<Run>, i: nat, node: string, error: MergeError)
    requires i < |runs| && !FileAfterNull(runs[..i], node)
    ensures NodeFails(runs, i, node, error) <==>
            var first := FirstReport(runs[..i], node);
            && first.Some? && ReportsNode(runs, i, node)
            && error == (if first.value.Garbage? then CannotReadExisting else CannotReadNew)
            && (first.value.Garbage? || runs[i].nodes[node].Garbage?)
  {
    FirstReportDecides(runs[..i], node);
    PanicsIff(runs[..i], node);
  }

  /** What the collector's goroutines on the nodes send, in the order of arrival. */
  datatype NodeRun = NodeFailed | NodeRan(result: map<string, Blob>)

  function UnionAll(results: seq<map<string, Blob>>): map<string, Blob> {
    if results == [] then map[] else UnionAll(results[..|results| - 1]) + results[|results| - 1]
  }

  datatype RemoteResult = RemoteFailed | RemoteDone(output: map<string, Blob>)

  function Results(runs: seq<NodeRun>): (r: seq<map<string, Blob>>)
    requires forall i :: 0 <= i < |runs| ==> runs[i].NodeRan?
    ensures |r| == |runs| && forall i :: 0 <= i < |runs| ==> r[i] == runs[i].result
  {
    seq(|runs|, i requires 0 <= i < |runs| => runs[i].result)
  }

  /** runRemote: the first error of any node fails it, otherwise the results are merged in the
      order in which they were sent. */
  method RunRemote(arrivals: seq<NodeRun>) returns (r: RemoteResult)
    ensures r.RemoteFailed? <==> NodeFailed in arrivals
    ensures r.RemoteDone? ==> r.output == UnionAll(Results(arrivals))
  {
    for i := 0 to |arrivals|
      invariant NodeFailed !in arrivals[..i]
    {
      if arrivals[i].NodeFailed? {
        return RemoteFailed;
      }
      assert arrivals[..i + 1] == arrivals[..i] + [arrivals[i]];
    }
    assert arrivals[..|arrivals|] == arrivals;
    assert forall i :: 0 <= i < |arrivals| ==> arrivals[i].NodeRan? by {
      assert forall i :: 0 <= i < |arrivals| ==> arrivals[i] in arrivals;
    }
    var output: map<string, Blob> := map[];
    ghost var results := Results(arrivals);
    for i := 0 to |arrivals|
      invariant output == UnionAll(results[..i])
    {
      output := CopyInto(output, arrivals[i].result);
      assert results[..i + 1][..i] == results[..i];
    }
    assert results[..|arrivals|] == results;
    return RemoteDone(output);
  }

  /** The loop over one result, in any order of its keys. */
  method CopyInto(output: map<string, Blob>, result: map<string, Blob>) returns (more: map<string, Blob>)
    ensures more == output + result
  {
    more := output;
    var left := result.Keys;
    while left != {}
      invariant left <= result.Keys
      invariant more == output + (map k | k in result && k !in left :: result[k])
      decreases left
    {
      var k :| k in left;
      more := more[k := result[k]];
      left := left - {k};
    }
  }

  /** Two results give the same bytes to every key they share. */
  predicate Agree(a: map<string, Blob>, b: map<string, Blob>) {
    forall k :: k in a && k in b ==> a[k] == b[k]
  }

  predicate AllAgree(results: seq<map<string, Blob>>) {
    forall i, j :: 0 <= i < |results| && 0 <= j < |results| ==> Agree(results[i], results[j])
  }

  /** The union holds the keys of the results, each with the bytes that one of them has. */
  lemma {:induction false} UnionHolds(results: seq<map<string, Blob>>, k: string)
    ensures k in UnionAll(results) <==> exists r :: r in results && k in r
    ensures k in UnionAll(results) ==> exists r :: r in results && k in r && r[k] == UnionAll(results)[k]
  {
    if results == [] {
    } else {
      var front, last := results[..|results| - 1], results[|results| - 1];
      UnionHolds(front, k);
      assert results == front + [last];
      if k in last {
        assert last in results && last[k] == UnionAll(results)[k];
      }
    }
  }

  /** And these are the bytes of the last result that has the key. */
  lemma {:induction false} LastResultWins(results: seq<map<string, Blob>>, k: string, i: nat)
    requires i < |results| && k in results[i] && forall j :: i < j < |results| ==> k !in results[j]
    ensures k in UnionAll(results) && UnionAll(results)[k] == results[i][k]
  {
    var front := results[..|results| - 1];
    if i < |front| {
      assert forall j :: i < j < |front| ==> front[j] == results[j];
      LastResultWins(front, k, i);
    }
  }

  lemma AgreeingUnion(p: seq<map<string, Blob>>, q: seq<map<string, Blob>>)
    requires AllAgree(p) && multiset(p) == multiset(q)
    ensures UnionAll(p) == UnionAll(q)
  {
    assert forall r :: r in p <==> r in multiset(p);
    assert forall r :: r in q <==> r in multiset(q);
    forall k
      ensures k in UnionAll(p) <==> k in UnionAll(q)
      ensures k in UnionAll(p) ==> UnionAll(p)[k] == UnionAll(q)[k]
    {
      UnionHolds(p, k);
      UnionHolds(q, k);
    }
  }

  /** The results with the i-th one moved to the end. */
  function MovedLast(p: seq<map<string, Blob>>, i: nat): seq<map<string, Blob>>
    requires i < |p|
  {
    p[..i] + p[i + 1..] + [p[i]]
  }

  lemma MovedLastWins(p: seq<map<string, Blob>>, i: nat, k: string)
    requires i < |p| && k in p[i]
    ensures multiset(MovedLast(p, i)) == multiset(p)
    ensures k in UnionAll(MovedLast(p, i)) && UnionAll(MovedLast(p, i))[k] == p[i][k]
  {
    assert p == p[..i] + [p[i]] + p[i + 1..];
  }

  /** The output of runRemote is the same for every order in which the nodes finish exactly when
      no two nodes report different bytes under one key, in particular when keys are disjoint. */
  lemma ScheduleIsIrrelevantIff(p: seq<map<string, Blob>>)
    ensures (forall q: seq<map<string, Blob>> :: multiset(q) == multiset(p) ==> UnionAll(q) == UnionAll(p)) <==>
            AllAgree(p)
  {
    if AllAgree(p) {
      forall q: seq<map<string, Blob>> | multiset(q) == multiset(p)
        ensures UnionAll(q) == UnionAll(p)
      {
        AgreeingUnion(p, q);
      }
    } else {
      var i, j :| 0 <= i < |p| && 0 <= j < |p| && !Agree(p[i], p[j]);
      var k :| k in p[i] && k in p[j] && p[i][k] != p[j][k];
      MovedLastWins(p, i, k);
      MovedLastWins(p, j, k);
      assert UnionAll(MovedLast(p, i)) != UnionAll(MovedLast(p, j));
    }
  }

  /** mapCollectorResultToOutput copies its argument: a key of a map comes up once, so the branch
      that merges with an entry already there is dead. */
  method MapCollectorResultToOutput(result: map<string, Blob>) returns (output: map<string, Blob>)
    ensures output == result
  {
    output := map[];
    var left := result.Keys;
    while left != {}
      invariant left <= result.Keys
      invariant output == map k | k in result && k !in left :: result[k]
      decreases left
    {
      var k :| k in left;
      if k in output {
        assert false;
      } else {
        output := output[k := result[k]];
      }
      left := left - {k};
    }
  }
}
