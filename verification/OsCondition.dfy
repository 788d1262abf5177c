/** The "when" condition of the host OS analyzer, compiled to a version range expression:
    CheckCondition in pkg/analyze/host_os_info.go. */
module OsCondition {
  import opened Options
  import opened Text

  /** A semantic version without pre-release part. */
  datatype Version = Version(major: nat, minor: nat, patch: nat)

  function PrintVersion(v: Version): string {
    Join([PrintDigits(v.major), PrintDigits(v.minor), PrintDigits(v.patch)], '.')
  }

  predicate AllDigits(s: string) {
    s != "" && forall i :: 0 <= i < |s| ==> IsDigit(s[i])
  }

  /** The version in a range expression. */
  function ReadVersion(s: string): Option<Version> {
    var parts := Split(s, '.');
    if |parts| == 3 && AllDigits(parts[0]) && AllDigits(parts[1]) && AllDigits(parts[2]) then
      Some(Version(ParseDigits(parts[0]), ParseDigits(parts[1]), ParseDigits(parts[2])))
    else None
  }

  lemma ReadPrintedVersion(v: Version)
    ensures IsShown(PrintVersion(v), v)
    ensures PrintVersion(v) == PrintDigits(v.major) + "." + PrintDigits(v.minor) + "." + PrintDigits(v.patch)
  {
    var major, minor, patch := PrintDigits(v.major), PrintDigits(v.minor), PrintDigits(v.patch);
    assert [minor, patch][1..] == [patch] && Join([minor, patch], '.') == minor + ['.'] + patch;
    assert [major, minor, patch][1..] == [minor, patch];
    assert Join([major, minor, patch], '.') == major + ['.'] + (minor + ['.'] + patch);
    SplitJoin([major, minor, patch], '.');
    ParsePrintDigits(v.major);
    ParsePrintDigits(v.minor);
    ParsePrintDigits(v.patch);
    assert IsDigit(PrintVersion(v)[0]);
  }

  predicate Less(a: Version, b: Version) {
    || a.major < b.major
    || (a.major == b.major && a.minor < b.minor)
    || (a.major == b.major && a.minor == b.minor && a.patch < b.patch)
  }

  datatype Op = EQ | NE | LT | LE | GT | GE

  function ReadOp(s: string): Option<Op> {
    if s == "=" || s == "==" then Some(EQ)
    else if s == "!=" then Some(NE)
    else if s == "<" then Some(LT)
    else if s == "<=" then Some(LE)
    else if s == ">" then Some(GT)
    else if s == ">=" then Some(GE)
    else None
  }

  predicate Compares(v: Version, op: Op, bound: Version) {
    match op
    case EQ => v == bound
    case NE => v != bound
    case LT => Less(v, bound)
    case LE => !Less(bound, v)
    case GT => Less(bound, v)
    case GE => !Less(v, bound)
  }

  datatype Comparator = Comparator(op: Op, bound: Version)

  /** A range: some group has all its comparators hold. */
  type Range = seq<seq<Comparator>>

  predicate Group(group: seq<Comparator>, v: Version) {
    group == [] || (Compares(v, group[0].op, group[0].bound) && Group(group[1..], v))
  }

  predicate Accepts(range: Range, v: Version) {
    range != [] && (Group(range[0], v) || Accepts(range[1..], v))
  }

  /** What semver.ParseRange makes of the words of an expression: comparators side by side are
      joined, "||" separates the groups. */
  function ReadRange(words: seq<string>): (r: Option<Range>)
    ensures r.Some? ==> |r.value| > 0
  {
    if |words| < 2 then None
    else
      match (ReadOp(words[0]), ReadVersion(words[1]))
      case (Some(op), Some(bound)) =>
        var c := Comparator(op, bound);
        if |words| == 2 then Some([[c]])
        else if words[2] == "||" then
          (match ReadRange(words[3..]) case None => None case Some(r) => Some([[c]] + r))
        else (match ReadRange(words[2..]) case None => None case Some(r) => Some([[c] + r[0]] + r[1..]))
      case _ => None
  }

  function ParseRange(expression: string): Option<Range> {
    ReadRange(Split(expression, ' '))
  }

  datatype Error =
    | TooShort
    | NotThrees
    | BadVersion(word: string)
    | BadConnective(word: string)
    | BadRange
    | BadActual(word: string)

  datatype Outcome<T> = Ok(value: T) | Err(error: Error)

  /** fixVersion followed by semver.ParseTolerant; None when the version is rejected. */
  type Parser = string -> Option<Version>

  type Show = Version -> string

  /** A version's text reads as that version, not as several words nor as an operator. */
  predicate IsShown(text: string, v: Version) {
    ReadVersion(text) == Some(v) && ' ' !in text && ReadOp(text).None?
  }

  ghost predicate Shows(show: Show) {
    forall v :: IsShown(show(v), v)
  }

  /** The first thing wrong with a condition, before any operator is looked at. */
  function FirstError(parse: Parser, parts: seq<string>, first: bool): Option<Error> {
    if |parts| < 3 then None
    else if parse(parts[2]).None? then Some(BadVersion(parts[2]))
    else if !first && parts[0] != "||" && parts[0] != "&&" then Some(BadConnective(parts[0]))
    else FirstError(parse, parts[3..], false)
  }

  /** The words of the expression compiled from clauses of three words each, or the first error.
      The first word of the first clause is the platform, of any other its connective. */
  function Compile(parse: Parser, show: Show, parts: seq<string>, first: bool): Outcome<seq<string>>
  {
    if |parts| < 3 then Ok([]) else OneClause(parse, show, parts, first, Compile(parse, show, parts[3..], false))
  }

  function OneClause(parse: Parser, show: Show, parts: seq<string>, first: bool,
                     rest: Outcome<seq<string>>): Outcome<seq<string>>
    requires |parts| >= 3
  {
    if parse(parts[2]).None? then Err(BadVersion(parts[2]))
    else if !first && parts[0] != "||" && parts[0] != "&&" then Err(BadConnective(parts[0]))
    else Prefixed(ClauseWords(parse, show, parts, first), rest)
  }

  /** Words put in front of what is still to be compiled. */
  function Prefixed(words: seq<string>, rest: Outcome<seq<string>>): Outcome<seq<string>> {
    match rest
    case Err(error) => Err(error)
    case Ok(more) => Ok(words + more)
  }

  function ClauseWords(parse: Parser, show: Show, parts: seq<string>, first: bool): seq<string>
    requires |parts| >= 3 && parse(parts[2]).Some?
  {
    var printed := show(parse(parts[2]).value);
    if !first && parts[0] == "||" then ["||", parts[1], printed] else [parts[1], printed]
  }

  /** The clause at the front of parts holds of the version; an unknown operator never does. */
  predicate Holds(parse: Parser, parts: seq<string>, v: Version)
    requires |parts| >= 3 && parse(parts[2]).Some?
  {
    ReadOp(parts[1]).Some? && Compares(v, ReadOp(parts[1]).value, parse(parts[2]).value)
  }

  /** Every version parses. */
  predicate Parses(parse: Parser, parts: seq<string>)
  {
    |parts| < 3 || (parse(parts[2]).Some? && Parses(parse, parts[3..]))
  }

  /** What the condition says of a version, with && binding tighter than ||. pending is the
      value of the conjunction read so far. */
  predicate Meaning(parse: Parser, pending: bool, parts: seq<string>, v: Version)
    requires Parses(parse, parts)
    decreases |parts|
  {
    if |parts| < 3 then pending
    else if parts[0] == "||" then pending || Meaning(parse, Holds(parse, parts, v), parts[3..], v)
    else Meaning(parse, pending && Holds(parse, parts, v), parts[3..], v)
  }

  predicate KnownOps(parts: seq<string>)
  {
    |parts| < 3 || (ReadOp(parts[1]).Some? && KnownOps(parts[3..]))
  }

  /** Nothing is wrong exactly when every version parses and every clause after the first has a
      connective. */
  predicate Connected(parts: seq<string>)
  {
    |parts| < 3 || ((parts[0] == "||" || parts[0] == "&&") && Connected(parts[3..]))
  }

  lemma {:induction false} NoErrorIffWellFormed(parse: Parser, parts: seq<string>, first: bool)
    ensures FirstError(parse, parts, first).None? <==>
            Parses(parse, parts) && (if first && |parts| >= 3 then Connected(parts[3..]) else Connected(parts))
  {
    if |parts| >= 3 {
      NoErrorIffWellFormed(parse, parts[3..], false);
    }
  }

  lemma {:induction false} CompiledParses(parse: Parser, show: Show, parts: seq<string>, first: bool)
    ensures Compile(parse, show, parts, first).Ok? ==> Parses(parse, parts)
    ensures match Compile(parse, show, parts, first)
            case Err(error) => FirstError(parse, parts, first) == Some(error)
            case Ok(_) => FirstError(parse, parts, first).None?
  {
    if |parts| >= 3 {
      CompiledParses(parse, show, parts[3..], false);
    }
  }

  /** A clause after the first compiles like a first one, behind "||" if that is its connective. */
  lemma LaterClause(parse: Parser, show: Show, parts: seq<string>)
    requires |parts| >= 3 && Compile(parse, show, parts, false).Ok?
    ensures Compile(parse, show, parts, true).Ok?
    ensures Compile(parse, show, parts, false).value ==
            if parts[0] == "||" then ["||"] + Compile(parse, show, parts, true).value
            else Compile(parse, show, parts, true).value
    ensures parts[0] == "||" || parts[0] == "&&"
  {
    LaterWordsBehind(parse, show, parts, Compile(parse, show, parts[3..], false));
  }

  lemma LaterWordsBehind(parse: Parser, show: Show, parts: seq<string>, rest: Outcome<seq<string>>)
    requires |parts| >= 3 && OneClause(parse, show, parts, false, rest).Ok?
    ensures OneClause(parse, show, parts, true, rest).Ok? && (parts[0] == "||" || parts[0] == "&&")
    ensures var alone := OneClause(parse, show, parts, true, rest).value;
            OneClause(parse, show, parts, false, rest).value == if parts[0] == "||" then ["||"] + alone else alone
  {
    var op, shown := parts[1], show(parse(parts[2]).value);
    assert ["||"] + ([op, shown] + rest.value) == ["||", op, shown] + rest.value;
  }

  /** The meaning of a condition whose first clause is joined to what is pending. */
  predicate MeaningFrom(parse: Parser, pending: bool, parts: seq<string>, v: Version)
    requires |parts| >= 3 && Parses(parse, parts)
  {
    Meaning(parse, pending && Holds(parse, parts, v), parts[3..], v)
  }

  lemma MeaningOfMore(parse: Parser, pending: bool, parts: seq<string>, v: Version)
    requires |parts| >= 6 && Parses(parse, parts)
    ensures MeaningFrom(parse, pending, parts, v) <==>
            if parts[3] == "||" then (pending && Holds(parse, parts, v)) || MeaningFrom(parse, true, parts[3..], v)
            else MeaningFrom(parse, pending && Holds(parse, parts, v), parts[3..], v)
  {
  }

  /** What was read says what was meant, its first group being joined to what is pending. */
  ghost predicate ReadsAs(known: bool, meant: bool, pending: bool, v: Version, read: Option<Range>) {
    && (read.Some? <==> known)
    && (read.Some? ==>
          && |read.value| > 0
          && (meant <==> ((pending && Group(read.value[0], v)) || Accepts(read.value[1..], v))))
  }

  /** Reading the words of compiled clauses gives a range exactly when every operator is known,
      and the range accepts what the clauses mean. */
  lemma {:induction false} CompiledReads(parse: Parser, show: Show, parts: seq<string>, pending: bool, v: Version)
    requires Shows(show)
    requires |parts| >= 3 && Compile(parse, show, parts, true).Ok?
    ensures Parses(parse, parts)
    ensures ReadsAs(KnownOps(parts), MeaningFrom(parse, pending, parts, v), pending, v,
                    ReadRange(Compile(parse, show, parts, true).value))
    decreases |parts|
  {
    CompiledParses(parse, show, parts, true);
    var rest := parts[3..];
    if |rest| < 3 {
      LastClause(parse, show, parts, pending, v);
    } else {
      LaterClause(parse, show, rest);
      var joined := rest[0] == "||" || (pending && Holds(parse, parts, v));
      CompiledReads(parse, show, rest, joined, v);
      var later := ReadRange(Compile(parse, show, rest, true).value);
      var read := ReadRange(Compile(parse, show, parts, true).value);
      ReadClause(parse, show, parts, Compile(parse, show, rest, true).value);
      MeaningOfMore(parse, pending, parts, v);
      OneMoreClause(ReadOp(parts[1]), parse(parts[2]).value, rest[0] == "||", KnownOps(rest),
                    MeaningFrom(parse, joined, rest, v), pending, v, later, read);
    }
  }

  lemma LastClause(parse: Parser, show: Show, parts: seq<string>, pending: bool, v: Version)
    requires Shows(show)
    requires 3 <= |parts| < 6 && Compile(parse, show, parts, true).Ok? && Parses(parse, parts)
    ensures ReadsAs(KnownOps(parts), MeaningFrom(parse, pending, parts, v), pending, v,
                    ReadRange(Compile(parse, show, parts, true).value))
  {
    var bound := parse(parts[2]).value;
    assert IsShown(show(bound), bound);
    assert Compile(parse, show, parts, true).value == [parts[1], show(bound)];
  }

  /** One clause read in front of a range: a group of its own, or one more comparator. */
  function WithClause(op: Option<Op>, bound: Version, apart: bool, later: Option<Range>): Option<Range>
    requires later.Some? ==> |later.value| > 0
  {
    if op.None? || later.None? then None
    else if apart then Some([[Comparator(op.value, bound)]] + later.value)
    else Some([[Comparator(op.value, bound)] + later.value[0]] + later.value[1..])
  }

  lemma OneMoreClause(op: Option<Op>, bound: Version, apart: bool, known: bool, meant: bool,
                      pending: bool, v: Version, later: Option<Range>, read: Option<Range>)
    requires ReadsAs(known, meant, apart || (pending && op.Some? && Compares(v, op.value, bound)), v, later)
    requires read == WithClause(op, bound, apart, later)
    ensures ReadsAs(op.Some? && known,
                    if apart then (pending && op.Some? && Compares(v, op.value, bound)) || meant else meant,
                    pending, v, read)
  {
    if read.Some? {
      var first := Comparator(op.value, bound);
      if apart {
        assert read.value[1..] == later.value && read.value[0] == [first];
        assert Accepts(later.value, v) <==> (Group(later.value[0], v) || Accepts(later.value[1..], v));
      } else {
        assert read.value[1..] == later.value[1..] && read.value[0] == [first] + later.value[0];
        assert read.value[0][1..] == later.value[0];
      }
    }
  }

  /** The words of clauses are those of the first and those of the rest. */
  lemma FrontWords(parse: Parser, show: Show, parts: seq<string>)
    requires |parts| >= 3 && Compile(parse, show, parts, true).Ok?
    ensures parse(parts[2]).Some? && Compile(parse, show, parts[3..], false).Ok?
    ensures Compile(parse, show, parts, true).value ==
            [parts[1], show(parse(parts[2]).value)] + Compile(parse, show, parts[3..], false).value
  {
    assert ClauseWords(parse, show, parts, true) == [parts[1], show(parse(parts[2]).value)];
  }

  /** The first of compiled clauses is read in front of the others. */
  lemma ReadClause(parse: Parser, show: Show, parts: seq<string>, later: seq<string>)
    requires Shows(show)
    requires |parts| >= 6 && Compile(parse, show, parts, true).Ok?
    requires Compile(parse, show, parts[3..], true) == Ok(later)
    ensures parse(parts[2]).Some?
    ensures ReadRange(Compile(parse, show, parts, true).value) ==
            WithClause(ReadOp(parts[1]), parse(parts[2]).value, parts[3] == "||", ReadRange(later))
  {
    var rest := parts[3..];
    FrontWords(parse, show, parts);
    FrontWords(parse, show, rest);
    LaterClause(parse, show, rest);
    var bound, next := parse(parts[2]).value, parse(rest[2]).value;
    assert IsShown(show(bound), bound) && IsShown(show(next), next);
    ReadWords(parts[1], show(bound), bound, later, rest[0] == "||",
              Compile(parse, show, parts, true).value, Compile(parse, show, rest, false).value);
  }

  lemma ReadWords(op: string, shown: string, bound: Version, later: seq<string>, apart: bool,
                  words: seq<string>, behind: seq<string>)
    requires IsShown(shown, bound) && |later| >= 2 && ReadOp(later[1]).None?
    requires words == [op, shown] + behind && behind == if apart then ["||"] + later else later
    ensures ReadRange(words) == WithClause(ReadOp(op), bound, apart, ReadRange(later))
  {
    if apart {
      ReadApart(op, shown, bound, later, words);
    } else if later[0] == "||" {
      UnknownOpReadsNothing(op, shown, bound, later, words);
    } else {
      ReadJoined(op, shown, bound, later, words);
    }
  }

  lemma ReadApart(op: string, shown: string, bound: Version, later: seq<string>, words: seq<string>)
    requires IsShown(shown, bound) && words == [op, shown] + (["||"] + later)
    ensures ReadRange(words) == WithClause(ReadOp(op), bound, true, ReadRange(later))
  {
    assert words[2] == "||" && words[3..] == later;
  }

  lemma ReadJoined(op: string, shown: string, bound: Version, later: seq<string>, words: seq<string>)
    requires later != [] && later[0] != "||"
    requires IsShown(shown, bound) && words == [op, shown] + later
    ensures ReadRange(words) == WithClause(ReadOp(op), bound, false, ReadRange(later))
  {
    assert words[2..] == later && words[2] == later[0];
  }

  /** An operator spelled "||" is no exception: with it nothing can be read. */
  lemma UnknownOpReadsNothing(op: string, shown: string, bound: Version, later: seq<string>, words: seq<string>)
    requires |later| >= 2 && later[0] == "||" && ReadOp(later[1]).None?
    requires IsShown(shown, bound) && words == [op, shown] + later
    ensures ReadRange(words).None? && ReadRange(later).None?
  {
    assert words[2] == "||" && words[3..][0] == later[1];
  }

  /** The parts of a host's description that a condition can name. */
  datatype HostOS = HostOS(platform: string, platformFamily: string, platformVersion: string, kernelVersion: string)

  /** "centos-8.2-kernel" and the like. */
  predicate NamesKernel(platform: string) {
    var pieces := Split(platform, '-');
    |pieces| == 3 && pieces[2] == "kernel"
  }

  function KernelClause(os: HostOS): string {
    os.platform + "-" + os.platformVersion + "-kernel"
  }

  /** The version that a condition on the platform is about, if it is about this host. */
  function PlatformSubject(os: HostOS, platform: string): Option<string> {
    if NamesKernel(platform) then
      (if platform == KernelClause(os) then Some(os.kernelVersion) else None)
    else if platform == os.platform || platform == os.platformFamily then Some(os.platformVersion)
    else None
  }

  /** The kernel clause of a host names a kernel exactly when neither its platform nor its platform
      version holds a dash: on other hosts its own description is no such clause. */
  lemma KernelClauseNamesKernel(os: HostOS)
    ensures NamesKernel(KernelClause(os)) <==> '-' !in os.platform && '-' !in os.platformVersion
  {
    var version := os.platformVersion + "-kernel";
    assert KernelClause(os) == os.platform + ['-'] + version;
    assert version == os.platformVersion + ['-'] + "kernel";
    PiecesAdd(os.platform, version, '-');
    PiecesAdd(os.platformVersion, "kernel", '-');
    SplitFirst("kernel", "", '-');
    PiecesOfPlain(os.platform, '-');
    PiecesOfPlain(os.platformVersion, '-');
    if '-' !in os.platform && '-' !in os.platformVersion {
      SplitFirst(os.platform, version, '-');
      SplitFirst(os.platformVersion, "kernel", '-');
    }
  }

  /** A condition can be about the kernel of this host by its kernel clause: the clause is its first
      word. */
  ghost predicate AsksForKernel(os: HostOS, when: string) {
    var word := Split(when, ' ')[0];
    NamesKernel(word) && PlatformSubject(os, word) == Some(os.kernelVersion)
  }

  /** Some condition is exactly when neither the platform nor its version holds a dash or a space. */
  lemma KernelClauseIsUsable(os: HostOS)
    ensures (exists when :: AsksForKernel(os, when)) <==>
            '-' !in os.platform && '-' !in os.platformVersion && ' ' !in os.platform && ' ' !in os.platformVersion
  {
    var clause := KernelClause(os);
    KernelClauseNamesKernel(os);
    MembersOfClause(os, ' ');
    if when :| AsksForKernel(os, when) {
      JoinSplit(when, ' ');
      assert Split(when, ' ')[0] == clause;
    }
    if NamesKernel(clause) && ' ' !in clause {
      SplitFirst(clause, ">= 1", ' ');
      assert AsksForKernel(os, clause + [' '] + ">= 1");
    }
  }

  lemma MembersOfClause(os: HostOS, c: char)
    requires c !in "-kernel"
    ensures c in KernelClause(os) <==> c in os.platform || c in os.platformVersion
  {
    assert KernelClause(os) == os.platform + "-" + os.platformVersion + "-kernel";
    assert c !in "-";
  }

  lemma {:induction false} PiecesAdd(a: string, b: string, sep: char)
    ensures |Split(a + [sep] + b, sep)| == |Split(a, sep)| + |Split(b, sep)|
  {
    var whole := a + [sep] + b;
    if a == "" {
      assert whole[1..] == b;
    } else {
      assert whole[1..] == a[1..] + [sep] + b;
      PiecesAdd(a[1..], b, sep);
    }
  }

  lemma {:induction false} PiecesOfPlain(s: string, sep: char)
    ensures |Split(s, sep)| == 1 <==> sep !in s
  {
    if s != "" {
      PiecesOfPlain(s[1..], sep);
    }
  }

  /** Whether the version that a condition is about meets it. */
  function Judge(parse: Parser, parts: seq<string>, subject: Option<string>): (r: Outcome<bool>)
    requires |parts| >= 3 && Parses(parse, parts)
  {
    if subject.None? then Ok(false)
    else if parse(subject.value).None? then Err(BadActual(subject.value))
    else Ok(MeaningFrom(parse, true, parts, parse(subject.value).value))
  }

  /** What a condition, split at its spaces, says of a host. */
  function Verdict(parse: Parser, parts: seq<string>, os: HostOS): Outcome<bool> {
    if |parts| < 3 then Err(TooShort)
    else if |parts| % 3 != 0 then Err(NotThrees)
    else
      match FirstError(parse, parts, true)
      case Some(error) => Err(error)
      case None =>
        NoErrorIffWellFormed(parse, parts, true);
        if !KnownOps(parts) then Err(BadRange)
        else
          var kernel := Judge(parse, parts, if parts[0] == "kernelVersion" then Some(os.kernelVersion) else None);
          if kernel == Ok(false) then Judge(parse, parts, PlatformSubject(os, parts[0])) else kernel
  }

  /** The clauses from the front on hold, up to the next "||". */
  predicate Run(parse: Parser, parts: seq<string>, v: Version)
    requires |parts| >= 3 && Parses(parse, parts)
  {
    Holds(parse, parts, v) && (|parts| < 6 || parts[3] == "||" || Run(parse, parts[3..], v))
  }

  /** "||" stands before clause k, counted in words, and the run of clauses from there on holds. */
  ghost predicate TrueGroupAt(parse: Parser, parts: seq<string>, k: nat, v: Version)
    requires Parses(parse, parts)
  {
    && k % 3 == 0 && k + 3 <= |parts| && parts[k] == "||"
    && Parses(parse, parts[k..]) && Run(parse, parts[k..], v)
  }

  /** "&&" binds tighter than "||": a condition holds when all of the first clauses, or all of those
      from some "||" on, hold up to the next "||". */
  lemma {:induction false} AndBindsTighter(parse: Parser, pending: bool, parts: seq<string>, v: Version)
    requires |parts| >= 3 && Parses(parse, parts)
    ensures MeaningFrom(parse, pending, parts, v) <==>
            ((pending && Run(parse, parts, v)) || exists k: nat :: k > 0 && TrueGroupAt(parse, parts, k, v))
    decreases |parts|
  {
    if |parts| >= 6 {
      var rest := parts[3..];
      var joined := rest[0] == "||" || (pending && Holds(parse, parts, v));
      MeaningOfMore(parse, pending, parts, v);
      AndBindsTighter(parse, joined, rest, v);
      forall k: nat | k >= 3
        ensures TrueGroupAt(parse, parts, k, v) <==> TrueGroupAt(parse, rest, k - 3, v)
      {
        if k <= |parts| {
          assert parts[k..] == rest[k - 3..];
        }
      }
      if k: nat :| k > 0 && TrueGroupAt(parse, rest, k, v) {
        assert TrueGroupAt(parse, parts, k + 3, v);
      }
      if rest[0] == "||" {
        assert rest[0..] == rest;
        assert TrueGroupAt(parse, rest, 0, v) <==> Run(parse, rest, v);
        assert TrueGroupAt(parse, parts, 3, v) <==> Run(parse, rest, v);
      }
    }
  }

  lemma {:induction false} JoinMore(words: seq<string>, word: string)
    requires words != []
    ensures Join(words + [word], ' ') == Join(words, ' ') + " " + word
  {
    if |words| > 1 {
      JoinMore(words[1..], word);
      assert (words + [word])[1..] == words[1..] + [word];
    } else {
      assert (words + [word])[1..] == [word];
    }
  }

  predicate NoSpaces(words: seq<string>) {
    forall i :: 0 <= i < |words| ==> ' ' !in words[i]
  }

  /** The loop over the clauses: the expression is that of the compiled words. */
  method BuildExpression(parse: Parser, show: Show, parts: seq<string>, ghost clauses: nat) returns (r: Outcome<string>)
    requires Shows(show)
    requires |parts| == 3 * clauses && clauses > 0 && NoSpaces(parts)
    ensures IsExpressionOf(r, Compile(parse, show, parts, true))
  {
    var version := parse(parts[2]);
    if version.None? {
      return Err(BadVersion(parts[2]));
    }
    var text := parts[1] + " " + show(version.value);
    ghost var compiled := Compile(parse, show, parts, true);
    ghost var words := FirstRound(parse, show, parts);
    var trimmedParts := parts;
    ghost var left := clauses;
    while |trimmedParts| > 3
      invariant |trimmedParts| == 3 * left && left > 0
      invariant Building(parse, show, compiled, trimmedParts, words, text)
      decreases |trimmedParts|
    {
      words := NextRound(parse, show, compiled, trimmedParts, words, text, trimmedParts[3..]);
      trimmedParts, left := trimmedParts[3..], left - 1;
      version := parse(trimmedParts[2]);
      if version.None? {
        return Err(BadVersion(trimmedParts[2]));
      }
      if trimmedParts[0] == "||" {
        text := text + " " + trimmedParts[0] + " " + trimmedParts[1] + " " + show(version.value);
      } else if trimmedParts[0] == "&&" {
        text := text + " " + trimmedParts[1] + " " + show(version.value);
      } else {
        return Err(BadConnective(trimmedParts[0]));
      }
    }
    LastRound(parse, show, compiled, trimmedParts, words, text);
    return Ok(text);
  }

  ghost predicate IsExpressionOf(r: Outcome<string>, compiled: Outcome<seq<string>>) {
    match compiled
    case Err(error) => r == Err(error)
    case Ok(words) => words != [] && NoSpaces(words) && r == Ok(Join(words, ' '))
  }

  /** The text holds the words so far; the clauses behind the one at the front are to be compiled. */
  ghost predicate Building(parse: Parser, show: Show, compiled: Outcome<seq<string>>, trimmed: seq<string>,
                           words: seq<string>, text: string)
    requires |trimmed| >= 3
  {
    && NoSpaces(trimmed)
    && words != [] && NoSpaces(words) && text == Join(words, ' ')
    && compiled == Prefixed(words, Compile(parse, show, trimmed[3..], false))
  }

  lemma FirstRound(parse: Parser, show: Show, parts: seq<string>) returns (words: seq<string>)
    requires Shows(show)
    requires |parts| >= 3 && NoSpaces(parts) && parse(parts[2]).Some?
    ensures Building(parse, show, Compile(parse, show, parts, true), parts, words,
                     parts[1] + " " + show(parse(parts[2]).value))
  {
    var printed := show(parse(parts[2]).value);
    assert IsShown(printed, parse(parts[2]).value);
    words := [parts[1], printed];
    assert words[1..] == [printed] && Join([printed], ' ') == printed;
    assert ClauseWords(parse, show, parts, true) == words;
  }

  lemma LastRound(parse: Parser, show: Show, compiled: Outcome<seq<string>>, trimmed: seq<string>,
                  words: seq<string>, text: string)
    requires |trimmed| == 3 && Building(parse, show, compiled, trimmed, words, text)
    ensures IsExpressionOf(Ok(text), compiled)
  {
    assert trimmed[3..] == [] && words + [] == words;
  }

  lemma NextRound(parse: Parser, show: Show, compiled: Outcome<seq<string>>, before: seq<string>,
                  words: seq<string>, text: string, trimmed: seq<string>)
    returns (more: seq<string>)
    requires Shows(show)
    requires |before| >= 6 && Building(parse, show, compiled, before, words, text)
    requires trimmed == before[3..]
    ensures parse(trimmed[2]).None? ==> compiled == Err(BadVersion(trimmed[2]))
    ensures parse(trimmed[2]).Some? ==>
              Continued(parse, show, compiled, trimmed, more, text, show(parse(trimmed[2]).value))
  {
    if parse(trimmed[2]).Some? {
      var printed := show(parse(trimmed[2]).value);
      assert IsShown(printed, parse(trimmed[2]).value);
      JoinClause(words, trimmed[0], trimmed[1], printed);
      NextClause(parse, show, compiled, trimmed, words, printed, Compile(parse, show, trimmed[3..], false));
      more := words + LaterWords(trimmed[0], trimmed[1], printed);
    } else {
      more := words;
    }
  }

  ghost predicate Continued(parse: Parser, show: Show, compiled: Outcome<seq<string>>, trimmed: seq<string>,
                            words: seq<string>, text: string, printed: string)
    requires |trimmed| >= 3
  {
    if trimmed[0] == "||" then
      Building(parse, show, compiled, trimmed, words, text + " " + trimmed[0] + " " + trimmed[1] + " " + printed)
    else if trimmed[0] == "&&" then
      Building(parse, show, compiled, trimmed, words, text + " " + trimmed[1] + " " + printed)
    else compiled == Err(BadConnective(trimmed[0]))
  }

  /** The words of one clause after the first. */
  function LaterWords(connective: string, op: string, printed: string): seq<string> {
    if connective == "||" then ["||", op, printed] else [op, printed]
  }

  lemma JoinClause(words: seq<string>, connective: string, op: string, printed: string)
    requires words != [] && NoSpaces(words) && ' ' !in op && ' ' !in printed
    ensures var more := words + LaterWords(connective, op, printed);
            && NoSpaces(more)
            && (connective == "||" ==>
                  Join(more, ' ') == Join(words, ' ') + " " + connective + " " + op + " " + printed)
            && (connective != "||" ==> Join(more, ' ') == Join(words, ' ') + " " + op + " " + printed)
  {
    if connective == "||" {
      JoinMore(words, "||");
      JoinMore(words + ["||"], op);
      JoinMore(words + ["||"] + [op], printed);
      assert words + ["||"] + [op] + [printed] == words + LaterWords(connective, op, printed);
    } else {
      JoinMore(words, op);
      JoinMore(words + [op], printed);
      assert words + [op] + [printed] == words + LaterWords(connective, op, printed);
    }
  }

  /** One round of the loop, on the compiled words. */
  lemma NextClause(parse: Parser, show: Show, compiled: Outcome<seq<string>>, trimmed: seq<string>,
                   words: seq<string>, printed: string, rest: Outcome<seq<string>>)
    requires |trimmed| >= 3 && parse(trimmed[2]).Some? && printed == show(parse(trimmed[2]).value)
    requires compiled == Prefixed(words, OneClause(parse, show, trimmed, false, rest))
    ensures compiled == if trimmed[0] != "||" && trimmed[0] != "&&" then Err(BadConnective(trimmed[0]))
                        else Prefixed(words + LaterWords(trimmed[0], trimmed[1], printed), rest)
  {
    PrefixMore(compiled, words, LaterWords(trimmed[0], trimmed[1], printed),
               OneClause(parse, show, trimmed, false, rest), rest);
  }

  lemma PrefixMore(compiled: Outcome<seq<string>>, words: seq<string>, more: seq<string>,
                   later: Outcome<seq<string>>, rest: Outcome<seq<string>>)
    requires compiled == Prefixed(words, later)
    ensures later == Prefixed(more, rest) ==> compiled == Prefixed(words + more, rest)
  {
    if rest.Ok? {
      assert words + (more + rest.value) == words + more + rest.value;
    }
  }

  /** The range of an expression accepts what the condition means. */
  lemma ExpressionReads(parse: Parser, show: Show, parts: seq<string>, expression: string)
    requires Shows(show)
    requires |parts| >= 3 && Compile(parse, show, parts, true).Ok?
    requires Compile(parse, show, parts, true).value != [] && NoSpaces(Compile(parse, show, parts, true).value)
    requires expression == Join(Compile(parse, show, parts, true).value, ' ')
    ensures Parses(parse, parts)
    ensures ParseRange(expression).Some? <==> KnownOps(parts)
    ensures KnownOps(parts) ==>
              forall v :: Accepts(ParseRange(expression).value, v) <==> MeaningFrom(parse, true, parts, v)
  {
    CompiledParses(parse, show, parts, true);
    SplitJoin(Compile(parse, show, parts, true).value, ' ');
    CompiledReads(parse, show, parts, true, Version(0, 0, 0));
    if KnownOps(parts) {
      forall v ensures Accepts(ParseRange(expression).value, v) <==> MeaningFrom(parse, true, parts, v) {
        CompiledReads(parse, show, parts, true, v);
      }
    }
  }

  /** Fixes, parses and tests one version of the host. */
  method TestVersion(parse: Parser, parts: seq<string>, range: Range, version: string) returns (r: Outcome<bool>)
    requires |parts| >= 3 && Parses(parse, parts)
    requires forall v :: Accepts(range, v) <==> MeaningFrom(parse, true, parts, v)
    ensures r == Judge(parse, parts, Some(version))
  {
    var parsed := parse(version);
    if parsed.None? {
      return Err(BadActual(version));
    }
    return Ok(Accepts(range, parsed.value));
  }

  /** The operators by their words. Versions are ordered by major, then minor, then patch number. */
  lemma OperatorsMean(v: Version, b: Version)
    ensures var below := v.major < b.major || (v.major == b.major
                           && (v.minor < b.minor || (v.minor == b.minor && v.patch < b.patch)));
            && WordHolds(v, "=", b) == WordHolds(v, "==", b) == (v == b) && WordHolds(v, "!=", b) == (v != b)
            && WordHolds(v, "<", b) == below && WordHolds(v, "<=", b) == (below || v == b)
            && WordHolds(v, ">", b) == !(below || v == b) && WordHolds(v, ">=", b) == !below
    ensures forall word :: ReadOp(word).Some? <==> word in ["=", "==", "!=", "<", "<=", ">", ">="]
  {
  }

  predicate WordHolds(v: Version, word: string, b: Version) {
    ReadOp(word).Some? && Compares(v, ReadOp(word).value, b)
  }

  /** A single clause means what its words say. */
  lemma OneClauseMeans(parse: Parser, parts: seq<string>, v: Version)
    requires |parts| == 3 && parse(parts[2]).Some?
    ensures Parses(parse, parts)
    ensures MeaningFrom(parse, true, parts, v) <==> WordHolds(v, parts[1], parse(parts[2]).value)
  {
  }

  /** And two clauses what both say, or one of them. */
  lemma TwoClausesMean(parse: Parser, parts: seq<string>, v: Version)
    requires |parts| == 6 && parse(parts[2]).Some? && parse(parts[5]).Some?
    ensures Parses(parse, parts)
    ensures var a, b := WordHolds(v, parts[1], parse(parts[2]).value), WordHolds(v, parts[4], parse(parts[5]).value);
            && (parts[3] == "||" ==> (MeaningFrom(parse, true, parts, v) <==> a || b))
            && (parts[3] == "&&" ==> (MeaningFrom(parse, true, parts, v) <==> a && b))
  {
    var rest := parts[3..];
    assert rest[1] == parts[4] && rest[2] == parts[5] && rest[0] == parts[3] && |rest[3..]| == 0;
    OneClauseMeans(parse, rest, v);
    MeaningOfMore(parse, true, parts, v);
  }

  /** The words that name a kernel are those of the form a-b-kernel, without further dashes. */
  lemma NamesKernelIff(word: string)
    ensures NamesKernel(word) <==>
            exists a: string, b: string :: '-' !in a && '-' !in b && word == Join([a, b, "kernel"], '-')
  {
    JoinSplit(word, '-');
    if a: string, b: string :| '-' !in a && '-' !in b && word == Join([a, b, "kernel"], '-') {
      SplitJoin([a, b, "kernel"], '-');
    }
    if NamesKernel(word) {
      var pieces := Split(word, '-');
      assert pieces == [pieces[0], pieces[1], "kernel"];
    }
  }

  /** The condition is well formed: clauses of three words, no version or connective wrong, and only
      known operators. */
  predicate Proper(parse: Parser, parts: seq<string>) {
    |parts| >= 3 && |parts| % 3 == 0 && FirstError(parse, parts, true).None? && KnownOps(parts)
  }

  /** What it then says of a version of the host, or the error about that version. */
  function Said(parse: Parser, parts: seq<string>, version: string): Outcome<bool>
    requires Proper(parse, parts)
  {
    NoErrorIffWellFormed(parse, parts, true);
    match parse(version)
    case None => Err(BadActual(version))
    case Some(v) => Ok(MeaningFrom(parse, true, parts, v))
  }

  /** A proper condition on the platform or its family is about the platform version, whatever the
      kernel version is. */
  lemma PlatformWordIsAboutPlatformVersion(parse: Parser, parts: seq<string>, os: HostOS)
    requires Proper(parse, parts) && (parts[0] == os.platform || parts[0] == os.platformFamily)
    requires parts[0] != "kernelVersion" && !NamesKernel(parts[0])
    ensures Verdict(parse, parts, os) == Said(parse, parts, os.platformVersion)
  {
    NoErrorIffWellFormed(parse, parts, true);
  }

  /** One on "kernelVersion" is about the kernel version, unless that does not meet it and the platform
      is called so too. */
  lemma KernelVersionIsAboutKernel(parse: Parser, parts: seq<string>, os: HostOS)
    requires Proper(parse, parts) && parts[0] == "kernelVersion"
    ensures Said(parse, parts, os.kernelVersion) != Ok(false) ==>
              Verdict(parse, parts, os) == Said(parse, parts, os.kernelVersion)
    ensures Said(parse, parts, os.kernelVersion) == Ok(false) ==>
              Verdict(parse, parts, os) ==
              if os.platform == "kernelVersion" || os.platformFamily == "kernelVersion"
              then Said(parse, parts, os.platformVersion) else Ok(false)
  {
    NoErrorIffWellFormed(parse, parts, true);
    NamesNoKernel(parts[0]);
  }

  lemma NamesNoKernel(word: string)
    requires '-' !in word
    ensures !NamesKernel(word)
  {
    SplitFirst(word, "", '-');
  }

  /** One on a kernel clause is about the kernel version of a host with that platform and platform
      version, and fails on any other. */
  lemma KernelClauseIsAboutKernel(parse: Parser, parts: seq<string>, os: HostOS)
    requires Proper(parse, parts) && parts[0] != "kernelVersion" && NamesKernel(parts[0])
    ensures Verdict(parse, parts, os) ==
            if parts[0] == os.platform + "-" + os.platformVersion + "-kernel" then Said(parse, parts, os.kernelVersion)
            else Ok(false)
  {
    NoErrorIffWellFormed(parse, parts, true);
  }

  /** One on a word that names nothing of the host fails. */
  lemma OtherWordFails(parse: Parser, parts: seq<string>, os: HostOS)
    requires Proper(parse, parts) && parts[0] != "kernelVersion" && !NamesKernel(parts[0])
    requires parts[0] != os.platform && parts[0] != os.platformFamily
    ensures Verdict(parse, parts, os) == Ok(false)
  {
    NoErrorIffWellFormed(parse, parts, true);
  }

  /** Anything else is an error: about the number of words, about the first clause with one, or about an
      operator. */
  lemma ImproperIsAnError(parse: Parser, parts: seq<string>, os: HostOS)
    ensures |parts| < 3 ==> Verdict(parse, parts, os) == Err(TooShort)
    ensures |parts| >= 3 && |parts| % 3 != 0 ==> Verdict(parse, parts, os) == Err(NotThrees)
    ensures |parts| >= 3 && |parts| % 3 == 0 && FirstError(parse, parts, true).Some? ==>
              Verdict(parse, parts, os) == Err(FirstError(parse, parts, true).value)
    ensures |parts| >= 3 && |parts| % 3 == 0 && FirstError(parse, parts, true).None? && !KnownOps(parts) ==>
              Verdict(parse, parts, os) == Err(BadRange)
  {
  }

  /** What is wrong with the clause that starts at word k: its version, or else its connective. */
  function ClauseError(parse: Parser, parts: seq<string>, k: nat, first: bool): Option<Error>
    requires k + 3 <= |parts|
  {
    if parse(parts[k + 2]).None? then Some(BadVersion(parts[k + 2]))
    else if !(first && k == 0) && parts[k] != "||" && parts[k] != "&&" then Some(BadConnective(parts[k]))
    else None
  }

  /** The error is that of the first clause that has one, at word k. */
  lemma {:induction false} FirstErrorIsFirst(parse: Parser, parts: seq<string>, first: bool) returns (k: nat)
    ensures match FirstError(parse, parts, first)
            case None => forall j: nat :: j % 3 == 0 && j + 3 <= |parts| ==> ClauseError(parse, parts, j, first).None?
            case Some(error) => ErrorAt(parse, parts, first, k, error)
  {
    k := 0;
    if |parts| >= 3 && ClauseError(parse, parts, 0, first).None? {
      var rest := parts[3..];
      k := FirstErrorIsFirst(parse, rest, false);
      forall j: nat | j >= 3 && j + 3 <= |parts|
        ensures ClauseError(parse, parts, j, first) == ClauseError(parse, rest, j - 3, false)
      {
      }
      k := k + 3;
    }
  }

  ghost predicate ErrorAt(parse: Parser, parts: seq<string>, first: bool, k: nat, error: Error) {
    && k % 3 == 0 && k + 3 <= |parts| && ClauseError(parse, parts, k, first) == Some(error)
    && forall j: nat :: j % 3 == 0 && j < k ==> ClauseError(parse, parts, j, first).None?
  }

  lemma PrintVersionShows(show: Show)
    requires show == PrintVersion
    ensures Shows(show)
  {
    forall v ensures IsShown(show(v), v) {
      ReadPrintedVersion(v);
    }
  }

  method CheckCondition(parse: Parser, when: string, os: HostOS) returns (r: Outcome<bool>)
    ensures r == Verdict(parse, Split(when, ' '), os)
  {
    var parts := Split(when, ' ');
    if |parts| < 3 {
      return Err(TooShort);
    }
    if |parts| % 3 != 0 {
      return Err(NotThrees);
    }
    JoinSplit(when, ' ');
    var show: Show := PrintVersion;
    PrintVersionShows(show);
    CompiledParses(parse, show, parts, true);
    var expression := BuildExpression(parse, show, parts, |parts| / 3);
    if expression.Err? {
      return Err(expression.error);
    }
    ExpressionReads(parse, show, parts, expression.value);
    var range := ParseRange(expression.value);
    if range.None? {
      return Err(BadRange);
    }

    if parts[0] == "kernelVersion" {
      r := TestVersion(parse, parts, range.value, os.kernelVersion);
      if r != Ok(false) {
        return;
      }
    }
    if NamesKernel(parts[0]) {
      if parts[0] == KernelClause(os) {
        r := TestVersion(parse, parts, range.value, os.kernelVersion);
        return;
      }
    } else if parts[0] == os.platform || parts[0] == os.platformFamily {
      r := TestVersion(parse, parts, range.value, os.platformVersion);
      return;
    }
    return Ok(false);
  }
}
