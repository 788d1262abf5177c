/** The log of the DNS script and its parser: troubleshootDNSFromPod and
    extractDNSQueriesFromPodLog in pkg/collect/dns.go. */
module DnsLog {

  datatype Section = NoSection | PodResolvConf | Kubernetes | NonResolvableDomain

  datatype DnsDebug = DnsDebug(podResolvConf: string, kubernetesName: string, kubernetesAddress: string,
                               nonResolvableAddress: string)

  const ResolvMark := "=== /etc/resolv.conf ==="
  const KubernetesMark := "=== dig kubernetes ==="
  const DomainMark := "=== dig non-existent-domain ==="

  /** strings.Contains. */
  predicate Contains(line: string, mark: string) {
    exists i :: 0 <= i <= |line| && mark <= line[i..]
  }

  /** A line as bufio.ScanLines gives it: without a carriage return at its end. */
  function DropCR(line: string): string {
    if line != "" && line[|line| - 1] == '\r' then line[..|line| - 1] else line
  }

  /** The lines of a text. line is the part of the current one before the text. */
  function LinesFrom(line: string, text: string): seq<string>
    decreases |text|
  {
    if text == "" then (if line == "" then [] else [DropCR(line)])
    else if text[0] == '\n' then [DropCR(line)] + LinesFrom("", text[1..])
    else LinesFrom(line + [text[0]], text[1..])
  }

  function Lines(text: string): seq<string> {
    LinesFrom("", text)
  }

  /** Each line with a newline behind it. */
  function Terminated(lines: seq<string>): string {
    if lines == [] then "" else Terminated(lines[..|lines| - 1]) + lines[|lines| - 1] + "\n"
  }

  datatype Scan = Scan(section: Section, debug: DnsDebug)

  function Scanned(scan: Scan, line: string): Scan {
    var debug := scan.debug;
    if Contains(line, ResolvMark) then scan.(section := PodResolvConf)
    else if Contains(line, KubernetesMark) then scan.(section := Kubernetes)
    else if Contains(line, DomainMark) then scan.(section := NonResolvableDomain)
    else
      match scan.section
      case NoSection => scan
      case PodResolvConf => scan.(debug := debug.(podResolvConf := debug.podResolvConf + line + "\n"))
      case Kubernetes => scan.(debug := debug.(kubernetesName := "kubernetes", kubernetesAddress := line))
      case NonResolvableDomain => scan.(debug := debug.(nonResolvableAddress := line))
  }

  function ScannedAll(scan: Scan, lines: seq<string>): Scan {
    if lines == [] then scan else Scanned(ScannedAll(scan, lines[..|lines| - 1]), lines[|lines| - 1])
  }

  method ExtractDNSQueriesFromPodLog(podLog: string, debug: DnsDebug) returns (r: DnsDebug)
    ensures r == ScannedAll(Scan(NoSection, debug), Lines(podLog)).debug
  {
    var lines := Lines(podLog);
    r := debug;
    var section := NoSection;
    for i := 0 to |lines|
      invariant Scan(section, r) == ScannedAll(Scan(NoSection, debug), lines[..i])
    {
      assert lines[..i + 1][..i] == lines[..i];
      var line := lines[i];
      if Contains(line, ResolvMark) {
        section := PodResolvConf;
      } else if Contains(line, KubernetesMark) {
        section := Kubernetes;
      } else if Contains(line, DomainMark) {
        section := NonResolvableDomain;
      } else {
        match section {
          case NoSection =>
          case PodResolvConf => r := r.(podResolvConf := r.podResolvConf + line + "\n");
          case Kubernetes => r := r.(kubernetesName := "kubernetes", kubernetesAddress := line);
          case NonResolvableDomain => r := r.(nonResolvableAddress := line);
        }
      }
    }
    assert lines[..|lines|] == lines;
  }

  /** What the script prints: resolvConf is the whole file, kubernetes and domain are the lines that
      the two runs of dig print. */
  function ScriptLog(resolvConf: string, kubernetes: seq<string>, domain: seq<string>): string {
    Printed(ResolvMark, resolvConf, KubernetesMark, kubernetes, DomainMark, domain)
  }

  function Printed(first: string, resolvConf: string, second: string, kubernetes: seq<string>,
                   third: string, domain: seq<string>): string {
    first + "\n" + (resolvConf + (second + "\n" + (Terminated(kubernetes) + (third + "\n" + Terminated(domain)))))
  }

  /** The log of an empty file and two runs that print nothing. */
  lemma EmptyLog()
    ensures ScriptLog("", [], []) ==
            "=== /etc/resolv.conf ===\n" + "=== dig kubernetes ===\n" + "=== dig non-existent-domain ===\n"
  {
    assert ResolvMark + "\n" == "=== /etc/resolv.conf ===\n" && KubernetesMark + "\n" == "=== dig kubernetes ===\n";
    assert DomainMark + "\n" == "=== dig non-existent-domain ===\n";
  }

  /** A line that the scanner leaves as it is. */
  predicate IsLine(line: string) {
    '\n' !in line && DropCR(line) == line
  }

  /** Lines that a program can have printed, without a mark in them. */
  predicate PrintedLines(lines: seq<string>) {
    forall i :: 0 <= i < |lines| ==> '\n' !in lines[i] && NoMark(lines[i])
  }

  /** What is left of printed lines. */
  function Dropped(lines: seq<string>): (dropped: seq<string>)
    ensures |dropped| == |lines| && forall i :: 0 <= i < |lines| ==> dropped[i] == DropCR(lines[i])
  {
    seq(|lines|, i requires 0 <= i < |lines| => DropCR(lines[i]))
  }

  predicate NoMark(line: string) {
    !Contains(line, ResolvMark) && !Contains(line, KubernetesMark) && !Contains(line, DomainMark)
  }

  predicate PlainLines(lines: seq<string>) {
    forall i :: 0 <= i < |lines| ==> NoMark(lines[i])
  }

  lemma {:induction false} LinesOfLine(before: string, line: string, text: string)
    requires '\n' !in line
    ensures LinesFrom(before, line + "\n" + text) == [DropCR(before + line)] + Lines(text)
    decreases |line|
  {
    var whole := line + "\n" + text;
    if line == "" {
      assert whole[1..] == text && before + line == before;
    } else {
      assert whole[1..] == line[1..] + "\n" + text;
      assert before + [line[0]] + line[1..] == before + line;
      LinesOfLine(before + [line[0]], line[1..], text);
    }
  }

  lemma {:induction false} LinesOfTerminated(lines: seq<string>, text: string)
    requires forall i :: 0 <= i < |lines| ==> '\n' !in lines[i]
    ensures Lines(Terminated(lines) + text) == Dropped(lines) + Lines(text)
  {
    if lines == [] {
      assert "" + text == text;
    } else {
      var front, last := lines[..|lines| - 1], lines[|lines| - 1];
      LinesOfTerminated(front, last + "\n" + text);
      LinesOfLine("", last, text);
      assert "" + last == last;
      LastLine(lines, text);
    }
  }

  lemma LastLine(lines: seq<string>, text: string)
    requires lines != []
    ensures var front, last := lines[..|lines| - 1], lines[|lines| - 1];
            && Terminated(lines) + text == Terminated(front) + (last + "\n" + text)
            && Dropped(lines) == Dropped(front) + [DropCR(last)]
  {
  }

  lemma DroppedIsPlain(lines: seq<string>)
    requires PrintedLines(lines)
    ensures PlainLines(Dropped(lines))
  {
    forall i | 0 <= i < |lines|
      ensures NoMark(Dropped(lines)[i])
    {
      DropCRKeepsMarksOut(lines[i], ResolvMark);
      DropCRKeepsMarksOut(lines[i], KubernetesMark);
      DropCRKeepsMarksOut(lines[i], DomainMark);
    }
  }

  lemma DropCRKeepsMarksOut(line: string, mark: string)
    ensures Contains(DropCR(line), mark) ==> Contains(line, mark)
  {
    var dropped := DropCR(line);
    if i :| 0 <= i <= |dropped| && mark <= dropped[i..] {
      assert mark <= line[i..];
    }
  }

  lemma {:induction false} ScannedSum(scan: Scan, a: seq<string>, b: seq<string>)
    ensures ScannedAll(scan, a + b) == ScannedAll(ScannedAll(scan, a), b)
  {
    if b == [] {
      assert a + b == a;
    } else {
      ScannedSum(scan, a, b[..|b| - 1]);
      assert (a + b)[..|a + b| - 1] == a + b[..|b| - 1];
    }
  }

  /** Plain lines in a section: all of the file, or the last line of what dig printed. */
  lemma {:induction false} PlainSection(scan: Scan, lines: seq<string>)
    requires PlainLines(lines)
    ensures ScannedAll(scan, lines) ==
            match scan.section
            case NoSection => scan
            case PodResolvConf =>
              scan.(debug := scan.debug.(podResolvConf := scan.debug.podResolvConf + Terminated(lines)))
            case Kubernetes =>
              if lines == [] then scan
              else scan.(debug := scan.debug.(kubernetesName := "kubernetes", kubernetesAddress := lines[|lines| - 1]))
            case NonResolvableDomain =>
              if lines == [] then scan
              else scan.(debug := scan.debug.(nonResolvableAddress := lines[|lines| - 1]))
  {
    if lines == [] {
      assert scan.debug.podResolvConf + "" == scan.debug.podResolvConf;
    } else {
      PlainSection(scan, lines[..|lines| - 1]);
      var front, last := Terminated(lines[..|lines| - 1]), lines[|lines| - 1];
      assert NoMark(last);
      var conf := scan.debug.podResolvConf;
      assert conf + (front + last + "\n") == conf + front + last + "\n";
    }
  }

  lemma MarksAreDistinct()
    ensures !Contains(KubernetesMark, ResolvMark)
    ensures !Contains(DomainMark, ResolvMark) && !Contains(DomainMark, KubernetesMark)
  {
    NeedsCharacter(KubernetesMark, ResolvMark, 4);
    NeedsCharacter(DomainMark, ResolvMark, 4);
    NeedsCharacter(DomainMark, KubernetesMark, 8);
  }

  lemma ContainsAtEnd(before: string, mark: string)
    ensures Contains(before + mark, mark)
  {
    assert (before + mark)[|before|..] == mark;
  }

  lemma NeedsCharacter(line: string, mark: string, i: nat)
    requires i < |mark| && mark[i] !in line
    ensures !Contains(line, mark)
  {
    forall k | 0 <= k <= |line|
      ensures !(mark <= line[k..])
    {
      if k + i < |line| {
        assert line[k..][i] in line;
      }
    }
  }

  /** The fields that the parser finds in the log of a script: the file as far as it was recovered,
      and the last line of what each dig printed; a dig that printed nothing leaves its fields as they
      were. */
  function Recovered(file: string, kubernetes: seq<string>, domain: seq<string>, debug: DnsDebug): DnsDebug {
    DnsDebug(file,
             if kubernetes == [] then debug.kubernetesName else "kubernetes",
             if kubernetes == [] then debug.kubernetesAddress else DropCR(kubernetes[|kubernetes| - 1]),
             if domain == [] then debug.nonResolvableAddress else DropCR(domain[|domain| - 1]))
  }

  /** Parsing what the script printed gives back the file line by line, each without the carriage
      return at its end, and the last lines. */
  lemma LogRoundTrip(resolv: seq<string>, kubernetes: seq<string>, domain: seq<string>, debug: DnsDebug)
    requires PrintedLines(resolv) && PrintedLines(kubernetes) && PrintedLines(domain)
    requires debug.podResolvConf == ""
    ensures ScannedAll(Scan(NoSection, debug), Lines(ScriptLog(Terminated(resolv), kubernetes, domain))).debug ==
            Recovered(Terminated(Dropped(resolv)), kubernetes, domain, debug)
  {
    MarksAreDistinct();
    assert Terminated(resolv) + "" == Terminated(resolv) && "" + KubernetesMark == KubernetesMark;
    UnterminatedFile(resolv, "", kubernetes, domain, debug);
  }

  /** A last line without a newline, tail, is lost: the next mark is printed behind it. */
  lemma UnterminatedFile(resolv: seq<string>, tail: string, kubernetes: seq<string>, domain: seq<string>,
                         debug: DnsDebug)
    requires PrintedLines(resolv) && PrintedLines(kubernetes) && PrintedLines(domain)
    requires '\n' !in tail && !Contains(tail + KubernetesMark, ResolvMark)
    requires debug.podResolvConf == ""
    ensures var log := ScriptLog(Terminated(resolv) + tail, kubernetes, domain);
            ScannedAll(Scan(NoSection, debug), Lines(log)).debug ==
            Recovered(Terminated(Dropped(resolv)), kubernetes, domain, debug)
  {
    LinesOfLog(ResolvMark, resolv, tail, KubernetesMark, kubernetes, DomainMark, domain);
    ContainsAtEnd(tail, KubernetesMark);
    DroppedIsPlain(resolv);
    DroppedIsPlain(kubernetes);
    DroppedIsPlain(domain);
    ScanOfLog(Dropped(resolv), tail + KubernetesMark, Dropped(kubernetes), Dropped(domain), debug);
  }

  /** Every file has lines and a tail. */
  lemma {:induction false} LinesOfFile(file: string) returns (lines: seq<string>, tail: string)
    ensures file == Terminated(lines) + tail
    ensures '\n' !in tail && forall i :: 0 <= i < |lines| ==> '\n' !in lines[i]
  {
    if file == "" {
      lines, tail := [], "";
    } else {
      var c := file[|file| - 1];
      lines, tail := LinesOfFile(file[..|file| - 1]);
      assert file == Terminated(lines) + tail + [c];
      if c == '\n' {
        var more := lines + [tail];
        assert more[..|more| - 1] == lines;
        assert Terminated(more) == Terminated(lines) + tail + "\n";
        lines, tail := more, "";
      } else {
        assert Terminated(lines) + tail + [c] == Terminated(lines) + (tail + [c]);
        tail := tail + [c];
      }
    }
  }

  /** The same with a tail that the mark behind it completes to the first mark: then the lines of the
      first dig are taken for lines of the file. */
  lemma TailBecomesMark(resolv: seq<string>, tail: string, kubernetes: seq<string>, domain: seq<string>,
                        debug: DnsDebug)
    requires PrintedLines(resolv) && PrintedLines(kubernetes) && PrintedLines(domain)
    requires '\n' !in tail && Contains(tail + KubernetesMark, ResolvMark)
    requires debug.podResolvConf == ""
    ensures var log := ScriptLog(Terminated(resolv) + tail, kubernetes, domain);
            var file := Terminated(Dropped(resolv)) + Terminated(Dropped(kubernetes));
            ScannedAll(Scan(NoSection, debug), Lines(log)).debug ==
            DnsDebug(file, debug.kubernetesName, debug.kubernetesAddress,
                     if domain == [] then debug.nonResolvableAddress else DropCR(domain[|domain| - 1]))
  {
    LinesOfLog(ResolvMark, resolv, tail, KubernetesMark, kubernetes, DomainMark, domain);
    DroppedIsPlain(resolv);
    DroppedIsPlain(kubernetes);
    DroppedIsPlain(domain);
    ScanOfMarkedLog(Dropped(resolv), tail + KubernetesMark, Dropped(kubernetes), Dropped(domain), debug);
  }

  /** So a file comes back exactly when it has no tail, being empty or ending in a newline, and none
      of its lines ends in a carriage return. */
  lemma FileComesBackIff(resolv: seq<string>, tail: string, kubernetes: seq<string>, domain: seq<string>,
                         debug: DnsDebug)
    requires PrintedLines(resolv) && PrintedLines(kubernetes) && PrintedLines(domain)
    requires '\n' !in tail && debug.podResolvConf == ""
    ensures var file := Terminated(resolv) + tail;
            var r := ScannedAll(Scan(NoSection, debug), Lines(ScriptLog(file, kubernetes, domain))).debug;
            r.podResolvConf == file <==>
            tail == "" && forall i :: 0 <= i < |resolv| && resolv[i] != "" ==> resolv[i][|resolv[i]| - 1] != '\r'
  {
    if Contains(tail + KubernetesMark, ResolvMark) {
      MarksAreDistinct();
      assert tail == "" ==> tail + KubernetesMark == KubernetesMark;
      TailBecomesMark(resolv, tail, kubernetes, domain, debug);
      EndsInNewline(Dropped(resolv));
      EndsInNewline(Dropped(kubernetes));
      EndsApart(Terminated(resolv), tail, Terminated(Dropped(resolv)), Terminated(Dropped(kubernetes)));
    } else {
      UnterminatedFile(resolv, tail, kubernetes, domain, debug);
      LinesComeBackIff(resolv, tail);
    }
  }

  lemma EndsInNewline(lines: seq<string>)
    ensures lines == [] ==> Terminated(lines) == ""
    ensures Terminated(lines) != "" ==> Terminated(lines)[|Terminated(lines)| - 1] == '\n'
  {
  }

  lemma EndsApart(file: string, tail: string, a: string, b: string)
    requires tail != "" && '\n' !in tail
    requires (a != "" ==> a[|a| - 1] == '\n') && (b != "" ==> b[|b| - 1] == '\n')
    ensures a + b != file + tail
  {
    var whole, other := file + tail, a + b;
    assert whole[|whole| - 1] == tail[|tail| - 1];
    if b != "" {
      assert other[|other| - 1] == '\n';
    } else {
      assert other == a;
    }
  }

  lemma LinesComeBackIff(resolv: seq<string>, tail: string)
    ensures Terminated(Dropped(resolv)) == Terminated(resolv) + tail <==>
            tail == "" && forall i :: 0 <= i < |resolv| ==> DropCR(resolv[i]) == resolv[i]
  {
    DroppedIsShorter(resolv);
    if forall i :: 0 <= i < |resolv| ==> DropCR(resolv[i]) == resolv[i] {
      assert Dropped(resolv) == resolv;
    }
    assert tail == "" ==> Terminated(resolv) + tail == Terminated(resolv);
  }

  lemma {:induction false} DroppedIsShorter(lines: seq<string>)
    ensures |Terminated(Dropped(lines))| <= |Terminated(lines)|
    ensures |Terminated(Dropped(lines))| == |Terminated(lines)| ==>
              forall i :: 0 <= i < |lines| ==> DropCR(lines[i]) == lines[i]
  {
    if lines != [] {
      var front, last := lines[..|lines| - 1], lines[|lines| - 1];
      DroppedIsShorter(front);
      assert Dropped(lines)[..|lines| - 1] == Dropped(front);
      assert forall i :: 0 <= i < |front| ==> front[i] == lines[i];
    }
  }

  function LogLines(first: string, resolv: seq<string>, second: string, kubernetes: seq<string>,
                    third: string, domain: seq<string>): seq<string> {
    [first] + resolv + [second] + kubernetes + [third] + domain
  }

  lemma LinesOfLog(first: string, resolv: seq<string>, tail: string, second: string, kubernetes: seq<string>,
                   third: string, domain: seq<string>)
    requires PrintedLines(resolv) && PrintedLines(kubernetes) && PrintedLines(domain)
    requires '\n' !in tail && IsLine(first) && IsLine(second) && IsLine(third) && second != ""
    ensures Lines(Printed(first, Terminated(resolv) + tail, second, kubernetes, third, domain)) ==
            LogLines(first, Dropped(resolv), tail + second, Dropped(kubernetes), third, Dropped(domain))
  {
    var c := Terminated(domain);
    var b := Terminated(kubernetes) + (third + "\n" + c);
    GlueTail(Terminated(resolv), tail, second, b);
    FirstLine(first, Terminated(resolv) + (tail + second + "\n" + b));
    LinesOfTerminated(resolv, tail + second + "\n" + b);
    DropTail(tail, second);
    FirstLine(tail + second, b);
    LinesOfTerminated(kubernetes, third + "\n" + c);
    FirstLine(third, c);
    LinesOfDomain(domain);
    Regroup([first], Dropped(resolv), [tail + second], Dropped(kubernetes), [third], Dropped(domain));
  }

  lemma GlueTail(file: string, tail: string, second: string, b: string)
    ensures (file + tail) + (second + "\n" + b) == file + (tail + second + "\n" + b)
  {
  }

  lemma DropTail(tail: string, second: string)
    requires '\n' !in tail && IsLine(second) && second != ""
    ensures IsLine(tail + second)
  {
    var line := tail + second;
    assert line[|line| - 1] == second[|second| - 1];
  }

  lemma LinesOfDomain(domain: seq<string>)
    requires forall i :: 0 <= i < |domain| ==> '\n' !in domain[i]
    ensures Lines(Terminated(domain)) == Dropped(domain)
  {
    LinesOfTerminated(domain, "");
    assert Terminated(domain) + "" == Terminated(domain);
  }

  lemma Regroup<T>(a: seq<T>, b: seq<T>, c: seq<T>, d: seq<T>, e: seq<T>, f: seq<T>)
    ensures a + (b + (c + (d + (e + f)))) == a + b + c + d + e + f
  {
    assert d + (e + f) == d + e + f;
    assert c + (d + e + f) == c + d + e + f;
    assert b + (c + d + e + f) == b + c + d + e + f;
  }

  lemma FirstLine(line: string, text: string)
    requires IsLine(line)
    ensures Lines(line + "\n" + text) == [line] + Lines(text)
  {
    LinesOfLine("", line, text);
    assert "" + line == line;
  }

  /** A mark opens its section, ... */
  lemma ScanOfSection(scan: Scan, mark: string, lines: seq<string>)
    requires PlainLines(lines)
    ensures ScannedAll(scan, [mark] + lines) == ScannedAll(Scanned(scan, mark), lines)
  {
    ScannedSum(scan, [mark], lines);
    ScannedOne(scan, mark);
  }

  /** ... the first one the file's, ... */
  lemma ScanOfFile(resolv: seq<string>, debug: DnsDebug)
    requires PlainLines(resolv) && debug.podResolvConf == ""
    ensures ScannedAll(Scan(NoSection, debug), [ResolvMark] + resolv) ==
            Scan(PodResolvConf, debug.(podResolvConf := Terminated(resolv)))
  {
    ContainsAtEnd("", ResolvMark);
    assert "" + ResolvMark == ResolvMark;
    ScanOfSection(Scan(NoSection, debug), ResolvMark, resolv);
    PlainSection(Scan(PodResolvConf, debug), resolv);
    assert "" + Terminated(resolv) == Terminated(resolv);
  }

  /** ... the last one that of the other domain. */
  lemma ScanOfDomain(scan: Scan, domain: seq<string>)
    requires PlainLines(domain)
    ensures ScannedAll(scan, [DomainMark] + domain).debug ==
            if domain == [] then scan.debug else scan.debug.(nonResolvableAddress := domain[|domain| - 1])
  {
    MarksAreDistinct();
    ContainsAtEnd("", DomainMark);
    assert "" + DomainMark == DomainMark;
    ScanOfSection(scan, DomainMark, domain);
    PlainSection(scan.(section := NonResolvableDomain), domain);
  }

  lemma ScanOfThree(scan: Scan, resolv: seq<string>, second: string, kubernetes: seq<string>, domain: seq<string>,
                    inFile: Scan, inDig: Scan)
    requires PlainLines(kubernetes)
    requires ScannedAll(scan, [ResolvMark] + resolv) == inFile
    requires ScannedAll(Scanned(inFile, second), kubernetes) == inDig
    ensures ScannedAll(scan, LogLines(ResolvMark, resolv, second, kubernetes, DomainMark, domain)) ==
            ScannedAll(inDig, [DomainMark] + domain)
  {
    var a, b, c := [ResolvMark] + resolv, [second] + kubernetes, [DomainMark] + domain;
    assert LogLines(ResolvMark, resolv, second, kubernetes, DomainMark, domain) == a + b + c;
    ScannedSum(scan, a, b);
    ScannedSum(scan, a + b, c);
    ScanOfSection(inFile, second, kubernetes);
  }

  lemma ScanOfLog(resolv: seq<string>, second: string, kubernetes: seq<string>, domain: seq<string>, debug: DnsDebug)
    requires PlainLines(resolv) && PlainLines(kubernetes) && PlainLines(domain)
    requires Contains(second, KubernetesMark) && !Contains(second, ResolvMark)
    requires debug.podResolvConf == ""
    ensures var lines := LogLines(ResolvMark, resolv, second, kubernetes, DomainMark, domain);
            ScannedAll(Scan(NoSection, debug), lines).debug ==
            DnsDebug(Terminated(resolv),
                     if kubernetes == [] then debug.kubernetesName else "kubernetes",
                     if kubernetes == [] then debug.kubernetesAddress else kubernetes[|kubernetes| - 1],
                     if domain == [] then debug.nonResolvableAddress else domain[|domain| - 1])
  {
    var inFile := Scan(PodResolvConf, debug.(podResolvConf := Terminated(resolv)));
    var inDig := ScannedAll(inFile.(section := Kubernetes), kubernetes);
    ScanOfFile(resolv, debug);
    PlainSection(inFile.(section := Kubernetes), kubernetes);
    ScanOfThree(Scan(NoSection, debug), resolv, second, kubernetes, domain, inFile, inDig);
    ScanOfDomain(inDig, domain);
  }

  lemma ScanOfMarkedLog(resolv: seq<string>, second: string, kubernetes: seq<string>, domain: seq<string>,
                        debug: DnsDebug)
    requires PlainLines(resolv) && PlainLines(kubernetes) && PlainLines(domain)
    requires Contains(second, ResolvMark) && debug.podResolvConf == ""
    ensures var lines := LogLines(ResolvMark, resolv, second, kubernetes, DomainMark, domain);
            ScannedAll(Scan(NoSection, debug), lines).debug ==
            DnsDebug(Terminated(resolv) + Terminated(kubernetes), debug.kubernetesName, debug.kubernetesAddress,
                     if domain == [] then debug.nonResolvableAddress else domain[|domain| - 1])
  {
    var inFile := Scan(PodResolvConf, debug.(podResolvConf := Terminated(resolv)));
    var inDig := ScannedAll(inFile, kubernetes);
    ScanOfFile(resolv, debug);
    PlainSection(inFile, kubernetes);
    ScanOfThree(Scan(NoSection, debug), resolv, second, kubernetes, domain, inFile, inDig);
    ScanOfDomain(inDig, domain);
  }

  lemma ScannedOne(scan: Scan, line: string)
    ensures ScannedAll(scan, [line]) == Scanned(scan, line)
  {
    assert [line][..0] == [];
  }
}
