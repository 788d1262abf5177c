/** Reading the kernel's IPv4 route table: parseProcNetRoute in
    pkg/collect/host_subnetavailable.go. */
module ProcNetRoute {
  import opened Options
  import opened Text
  import Ipv4

  /** A route as it is parsed; the mask is a 32-bit value like the addresses. */
  datatype Route = Route(iface: string, ip: Ipv4.Addr, mask: Ipv4.Addr, gateway: Ipv4.Addr, metric: Ipv4.Addr)

  datatype Error = WrongColumnCount | BadDestination | BadGateway | BadMask | BadMetric

  /** What becomes of a line: skipped, a route, an error return, or an index out of range. */
  datatype LineResult = Skip | Parsed(route: Route) | Fail(error: Error) | Panic

  datatype Result = Routes(routes: seq<Route>) | Failed(error: Error) | Panicked

  /** The four bytes of a column hold an address with its lowest byte first. */
  function FromBytes(b: seq<Byte>): Ipv4.Addr
    requires |b| >= 4
  {
    var b0: int, b1: int, b2: int, b3: int := b[0], b[1], b[2], b[3];
    b3 * 0x100_0000 + b2 * 0x1_0000 + b1 * 0x100 + b0
  }

  function ToBytes(a: Ipv4.Addr): (b: seq<Byte>)
    ensures |b| == 4 && FromBytes(b) == a
  {
    var a1: int := a / 0x100;
    var a2: int := a1 / 0x100;
    [a % 0x100, a1 % 0x100, a2 % 0x100, a2 / 0x100]
  }

  /** The address a.b.c.d. */
  function Dotted(a: Byte, b: Byte, c: Byte, d: Byte): int {
    ((a * 256 + b) * 256 + c) * 256 + d
  }

  /** A column is written from the last number of the address to the first. */
  lemma LowestByteFirst(a: Byte, b: Byte, c: Byte, d: Byte)
    ensures FromBytes([d, c, b, a]) == Dotted(a, b, c, d)
  {
  }

  /** A hexadecimal column: None when it does not decode; fewer than 4 bytes are found out
      only when they are indexed. */
  function HexColumn(s: string): Option<seq<Byte>> {
    HexDecode(TrimSpace(s))
  }

  function ParseLine(line: string): LineResult {
    if |line| < 4 then Skip
    else if |line| < 5 then Panic  // line[0:5] of a line of 4 characters
    else if line[..5] == "Iface" then Skip
    else
      var columns := Split(TrimSpace(line), '\t');
      if |columns| != 11 then Fail(WrongColumnCount) else ParseColumns(columns)
  }

  function ParseColumns(columns: seq<string>): LineResult
    requires |columns| == 11
  {
    var dest, gw, mask := HexColumn(columns[1]), HexColumn(columns[2]), HexColumn(columns[7]);
    if dest.None? then Fail(BadDestination)
    else if |dest.value| < 4 then Panic
    else if gw.None? then Fail(BadGateway)
    else if |gw.value| < 4 then Panic
    else if mask.None? then Fail(BadMask)
    else if |mask.value| < 4 then Panic
    else
      match Atoi(TrimSpace(columns[6]))
      case None => Fail(BadMetric)
      case Some(metric) =>
        Parsed(Route(TrimSpace(columns[0]), FromBytes(dest.value), FromBytes(mask.value), FromBytes(gw.value),
                     metric % 0x1_0000_0000))
  }

  /** What the lines amount to: all their routes in order, or what the first bad line does. */
  function ParseLines(lines: seq<string>): Result {
    if lines == [] then Routes([])
    else
      match ParseLine(lines[0])
      case Skip => ParseLines(lines[1..])
      case Fail(error) => Failed(error)
      case Panic => Panicked
      case Parsed(route) =>
        match ParseLines(lines[1..])
        case Routes(routes) => Routes([route] + routes)
        case other => other
  }

  method ParseProcNetRoute(input: string) returns (r: Result)
    ensures r == ParseLines(Split(input, '\n'))
  {
    var lines := Split(input, '\n');
    var routes: seq<Route> := [];
    for i := 0 to |lines|
      invariant ParseLines(lines) ==
                match ParseLines(lines[i..])
                case Routes(more) => Routes(routes + more)
                case other => other
    {
      match ParseLine(lines[i]) {
        case Skip =>
        case Fail(error) => return Failed(error);
        case Panic => return Panicked;
        case Parsed(route) =>
          assert forall more :: routes + ([route] + more) == routes + [route] + more;
          routes := routes + [route];
      }
      assert lines[i..][1..] == lines[i + 1..];
    }
    assert routes + [] == routes;
    return Routes(routes);
  }

  /** A row of the table as the kernel prints it; columns the parser ignores are any text. */
  datatype Row = Row(iface: string, dest: Ipv4.Addr, gateway: Ipv4.Addr, flags: string, refCnt: string,
                     use: string, metric: int, mask: Ipv4.Addr, mtu: string, window: string, irtt: string,
                     padding: nat)

  predicate Printable(row: Row) {
    && IsWord(row.iface)
    && IsWord(row.flags) && IsWord(row.refCnt) && IsWord(row.use)
    && IsWord(row.mtu) && IsWord(row.window) && IsWord(row.irtt)
    && -INT64_LIMIT <= row.metric < INT64_LIMIT
  }

  function Columns(row: Row): (columns: seq<string>)
    ensures |columns| == 11
  {
    [row.iface, HexEncode(ToBytes(row.dest)), HexEncode(ToBytes(row.gateway)), row.flags, row.refCnt, row.use,
     Itoa(row.metric), HexEncode(ToBytes(row.mask)), row.mtu, row.window, row.irtt]
  }

  function PrintRow(row: Row): string {
    Join(Columns(row), '\t') + Spaces(row.padding)
  }

  function PrintRows(rows: seq<Row>): seq<string> {
    if rows == [] then [""] else [PrintRow(rows[0])] + PrintRows(rows[1..])
  }

  /** The table: a heading, the rows, and a line feed at the end. */
  function PrintTable(heading: string, rows: seq<Row>): string {
    Join([heading] + PrintRows(rows), '\n')
  }

  function RouteOf(row: Row): Route {
    Route(row.iface, row.dest, row.mask, row.gateway, row.metric % 0x1_0000_0000)
  }

  function RoutesOf(rows: seq<Row>): (routes: seq<Route>)
    ensures |routes| == |rows| && forall i :: 0 <= i < |rows| ==> routes[i] == RouteOf(rows[i])
  {
    if rows == [] then [] else [RouteOf(rows[0])] + RoutesOf(rows[1..])
  }

  /** The row of an interface that is named like the heading is taken for a heading. */
  predicate LooksLikeHeading(row: Row) {
    "Iface" <= row.iface
  }

  /** The rows that do not. */
  function Visible(rows: seq<Row>): seq<Row> {
    if rows == [] then []
    else (if LooksLikeHeading(rows[0]) then [] else [rows[0]]) + Visible(rows[1..])
  }

  lemma {:induction false} VisibleIsAllIff(rows: seq<Row>)
    ensures |Visible(rows)| <= |rows|
    ensures |Visible(rows)| == |rows| <==> forall i :: 0 <= i < |rows| ==> !LooksLikeHeading(rows[i])
    ensures |Visible(rows)| == |rows| ==> Visible(rows) == rows
  {
    if rows != [] {
      VisibleIsAllIff(rows[1..]);
      assert forall i :: 0 < i < |rows| ==> rows[i] == rows[1..][i - 1];
      assert rows == [rows[0]] + rows[1..];
    }
  }

  lemma DigitsAreWord(n: int)
    ensures IsWord(Itoa(n))
  {
    assert forall c: char :: IsDigit(c) ==> !IsSpace(c);
  }

  lemma TrimWord(s: string)
    requires IsWord(s)
    ensures TrimSpace(s) == s
  {
    TrimPadded(s, 0);
    assert s + Spaces(0) == s;
  }

  lemma ColumnsAreWords(row: Row)
    requires Printable(row)
    ensures forall i :: 0 <= i < 11 ==> IsWord(Columns(row)[i])
  {
    DigitsAreWord(row.metric);
  }

  /** Joined words begin and end as the first and the last word do, and hold no separator
      other than the one between them. */
  lemma {:induction false} JoinedWords(words: seq<string>)
    requires |words| > 0 && forall i :: 0 <= i < |words| ==> IsWord(words[i])
    ensures var s := Join(words, '\t');
            && words[0] <= s
            && |s| >= 2 * |words| - 1
            && (|words| > 1 ==> words[0] + "\t" <= s)
            && !IsSpace(s[|s| - 1])
            && '\n' !in s
  {
    if |words| == 1 {
      assert forall c :: c in words[0] ==> !IsSpace(c);
    } else {
      JoinedWords(words[1..]);
      assert forall c :: c in words[0] ==> !IsSpace(c);
    }
  }

  lemma NotAHeading(iface: string, line: string)
    requires IsWord(iface) && !("Iface" <= iface) && iface + "\t" <= line && |line| >= 5
    ensures line[..5] != "Iface"
  {
    if |iface| < 5 {
      assert line[|iface|] == '\t';
    } else {
      assert line[..5] == iface[..5];
    }
  }

  lemma ParsePrintedRow(row: Row)
    requires Printable(row)
    ensures ParseLine(PrintRow(row)) == if LooksLikeHeading(row) then Skip else Parsed(RouteOf(row))
    ensures '\n' !in PrintRow(row)
  {
    var columns := Columns(row);
    ColumnsAreWords(row);
    JoinedWords(columns);
    if LooksLikeHeading(row) {
      AHeading(row.iface, PrintRow(row));
    } else {
      NotAHeading(row.iface, PrintRow(row));
      TrimPadded(Join(columns, '\t'), row.padding);
      SplitJoin(columns, '\t');
      ParsePrintedColumns(row);
    }
  }

  lemma AHeading(iface: string, line: string)
    requires "Iface" <= iface && iface <= line
    ensures |line| >= 5 && line[..5] == "Iface"
  {
  }

  lemma ParsePrintedColumns(row: Row)
    requires Printable(row)
    ensures ParseColumns(Columns(row)) == Parsed(RouteOf(row))
  {
    ColumnsAreWords(row);
    TrimWord(row.iface);
    TrimWord(Itoa(row.metric));
    AtoiOfItoa(row.metric);
    HexColumnOf(row.dest);
    HexColumnOf(row.gateway);
    HexColumnOf(row.mask);
  }

  lemma HexColumnOf(a: Ipv4.Addr)
    ensures HexColumn(HexEncode(ToBytes(a))) == Some(ToBytes(a))
  {
    TrimWord(HexEncode(ToBytes(a)));
    HexRoundTrip(ToBytes(a));
  }

  /** For example 192.168.0.0, which stands as 0000A8C0 in the table. */
  lemma ColumnOfAnAddress()
    ensures HexColumn("0000A8C0") == Some([0, 0, 168, 192])
    ensures FromBytes([0, 0, 168, 192]) == Dotted(192, 168, 0, 0)
  {
    assert TrimSpace("0000A8C0") == "0000A8C0";
    HexDecodeMore('C', '0', 192, "", [], "C0", [192]);
    HexDecodeMore('A', '8', 168, "C0", [192], "A8C0", [168, 192]);
    HexDecodeMore('0', '0', 0, "A8C0", [168, 192], "00A8C0", [0, 168, 192]);
    HexDecodeMore('0', '0', 0, "00A8C0", [0, 168, 192], "0000A8C0", [0, 0, 168, 192]);
  }

  /** A line is skipped when it is short or a heading. */
  lemma LineIsSkippedIff(line: string)
    ensures ParseLine(line) == Skip <==> |line| < 4 || (|line| > 4 && line[..5] == "Iface")
  {
  }

  /** Otherwise, when all is well, the first, second, third, seventh and eighth column are interface,
      destination, gateway, metric and mask; a metric is cut to 32 bits. */
  lemma ColumnsAreRead(columns: seq<string>, dest: seq<Byte>, gateway: seq<Byte>, mask: seq<Byte>, metric: int)
    requires |columns| == 11 && |dest| >= 4 && |gateway| >= 4 && |mask| >= 4
    requires HexColumn(columns[1]) == Some(dest) && HexColumn(columns[2]) == Some(gateway)
    requires HexColumn(columns[7]) == Some(mask) && Atoi(TrimSpace(columns[6])) == Some(metric)
    ensures var result := ParseColumns(columns);
            && result.Parsed? && result.route.iface == TrimSpace(columns[0])
            && result.route.ip == Dotted(dest[3], dest[2], dest[1], dest[0])
            && result.route.gateway == Dotted(gateway[3], gateway[2], gateway[1], gateway[0])
            && result.route.mask == Dotted(mask[3], mask[2], mask[1], mask[0])
            && (0 <= metric < 0x1_0000_0000 ==> result.route.metric == metric)
            && (-0x1_0000_0000 <= metric < 0 ==> result.route.metric == metric + 0x1_0000_0000)
  {
  }

  predicate Bad(column: string) {
    var s := TrimSpace(column);
    !AllHex(s) || |s| % 2 == 1
  }

  /** A line is an error in these cases: not 11 columns, an address column that does not decode before
      any that is short, or a metric that is no number behind addresses that are read. */
  lemma LineFailsIff(line: string, error: Error)
    ensures ParseLine(line) == Fail(error) <==>
            && |line| > 4 && line[..5] != "Iface"
            && var columns := Split(TrimSpace(line), '\t');
               if |columns| != 11 then error == WrongColumnCount
               else
                 match error
                 case WrongColumnCount => false
                 case BadDestination => Bad(columns[1])
                 case BadGateway => LongHex(columns[1]) && Bad(columns[2])
                 case BadMask => LongHex(columns[1]) && LongHex(columns[2]) && Bad(columns[7])
                 case BadMetric =>
                   && LongHex(columns[1]) && LongHex(columns[2]) && LongHex(columns[7])
                   && Atoi(TrimSpace(columns[6])).None?
  {
    var columns := Split(TrimSpace(line), '\t');
    if |columns| == 11 {
      HexDecodes(TrimSpace(columns[1]));
      HexDecodes(TrimSpace(columns[2]));
      HexDecodes(TrimSpace(columns[7]));
    }
  }

  /** The table up to a line is read without stopping. */
  predicate ReadableUpTo(lines: seq<string>, i: nat)
    requires i <= |lines|
  {
    forall j :: 0 <= j < i ==> ParseLine(lines[j]).Skip? || ParseLine(lines[j]).Parsed?
  }

  /** Reading a table panics exactly when one of its lines does that the lines before it let be
      reached. */
  lemma {:induction false} PanicsIff(lines: seq<string>)
    ensures ParseLines(lines).Panicked? <==>
            exists i: nat :: i < |lines| && ParseLine(lines[i]).Panic? && ReadableUpTo(lines, i)
  {
    if lines != [] {
      var rest := lines[1..];
      PanicsIff(rest);
      if i: nat :| i < |rest| && ParseLine(rest[i]).Panic? && ReadableUpTo(rest, i) {
        assert lines[i + 1] == rest[i];
        assert forall j :: 0 < j < i + 1 ==> lines[j] == rest[j - 1];
        assert ParseLine(lines[0]).Skip? || ParseLine(lines[0]).Parsed? ==> ReadableUpTo(lines, i + 1);
      }
      if i: nat :| i < |lines| && ParseLine(lines[i]).Panic? && ReadableUpTo(lines, i) {
        if i > 0 {
          assert rest[i - 1] == lines[i];
          assert forall j :: 0 <= j < i - 1 ==> rest[j] == lines[j + 1];
          assert ReadableUpTo(rest, i - 1);
        }
      }
      assert ParseLine(lines[0]).Panic? ==> ReadableUpTo(lines, 0);
    }
  }

  /** Hexadecimal digits for fewer than four bytes. */
  predicate ShortHex(column: string) {
    var s := TrimSpace(column);
    AllHex(s) && |s| % 2 == 0 && |s| < 8
  }

  /** Hexadecimal digits for four bytes or more. */
  predicate LongHex(column: string) {
    var s := TrimSpace(column);
    AllHex(s) && |s| % 2 == 0 && |s| >= 8
  }

  /** A line panics exactly when it has four characters, or 11 columns of which the destination,
      the gateway or the mask is short, those before it being long enough. */
  lemma LinePanicsIff(line: string)
    ensures ParseLine(line).Panic? <==>
            || |line| == 4
            || (|line| > 4 && line[..5] != "Iface" && ShortColumn(Split(TrimSpace(line), '\t')))
  {
    var columns := Split(TrimSpace(line), '\t');
    if |columns| == 11 {
      HexDecodes(TrimSpace(columns[1]));
      HexDecodes(TrimSpace(columns[2]));
      HexDecodes(TrimSpace(columns[7]));
    }
  }

  predicate ShortColumn(columns: seq<string>) {
    && |columns| == 11
    && (|| ShortHex(columns[1])
        || (LongHex(columns[1]) && ShortHex(columns[2]))
        || (LongHex(columns[1]) && LongHex(columns[2]) && ShortHex(columns[7])))
  }

  /** A line of eleven words whose second is short is such a line. */
  lemma ShortDestinationPanics(columns: seq<string>)
    requires |columns| == 11 && !("Iface" <= columns[0]) && ShortHex(columns[1])
    requires forall i :: 0 <= i < 11 ==> IsWord(columns[i])
    ensures ParseLine(Join(columns, '\t')).Panic?
  {
    var line := Join(columns, '\t');
    JoinedWords(columns);
    NotAHeading(columns[0], line);
    TrimPadded(line, 0);
    assert line + Spaces(0) == line;
    SplitJoin(columns, '\t');
    LinePanicsIff(line);
  }

  /** The destination 00, one byte, for example. */
  lemma OneByteDestinationPanics()
    ensures ParseLine(Join(["e", "00", "0", "0", "0", "0", "0", "0", "0", "0", "0"], '\t')).Panic?
  {
    assert TrimSpace("00") == "00";
    ShortDestinationPanics(["e", "00", "0", "0", "0", "0", "0", "0", "0", "0", "0"]);
  }

  /** A line of exactly four characters, in any table that is readable up to there, is sliced
      past its end: it is too long for the blank-line test and too short for the heading test. */
  lemma {:induction false} FourCharactersPanic(before: seq<string>, line: string, after: seq<string>)
    requires |line| == 4
    requires forall i :: 0 <= i < |before| ==> ParseLine(before[i]).Skip? || ParseLine(before[i]).Parsed?
    ensures ParseLines(before + [line] + after) == Panicked
  {
    var lines := before + [line] + after;
    if before == [] {
      assert lines[0] == line;
    } else {
      assert lines[0] == before[0] && lines[1..] == before[1..] + [line] + after;
      FourCharactersPanic(before[1..], line, after);
    }
  }

  lemma {:induction false} RowsAreLines(rows: seq<Row>)
    requires forall i :: 0 <= i < |rows| ==> Printable(rows[i])
    ensures forall line :: line in PrintRows(rows) ==> '\n' !in line
  {
    if rows == [] {
    } else {
      ParsePrintedRow(rows[0]);
      RowsAreLines(rows[1..]);
    }
  }

  lemma {:induction false} ParsePrintedRows(rows: seq<Row>)
    requires forall i :: 0 <= i < |rows| ==> Printable(rows[i])
    ensures ParseLines(PrintRows(rows)) == Routes(RoutesOf(Visible(rows)))
  {
    if rows == [] {
      assert PrintRows(rows) == [""];
    } else {
      ParsePrintedRows(rows[1..]);
      OneMoreRow(rows[0], PrintRows(rows[1..]), Visible(rows[1..]));
    }
  }

  lemma OneMoreRow(row: Row, lines: seq<string>, visible: seq<Row>)
    requires Printable(row) && ParseLines(lines) == Routes(RoutesOf(visible))
    ensures ParseLines([PrintRow(row)] + lines) ==
            Routes(RoutesOf((if LooksLikeHeading(row) then [] else [row]) + visible))
  {
    ParsePrintedRow(row);
    var all := [PrintRow(row)] + lines;
    assert all[0] == PrintRow(row) && all[1..] == lines;
    if LooksLikeHeading(row) {
      assert [] + visible == visible;
    } else {
      RoutesOfMore(row, visible);
    }
  }

  lemma RoutesOfMore(row: Row, rows: seq<Row>)
    ensures RoutesOf([row] + rows) == [RouteOf(row)] + RoutesOf(rows)
  {
    assert ([row] + rows)[1..] == rows;
  }

  lemma HeadingIsSkipped(heading: string, lines: seq<string>)
    requires "Iface" <= heading
    ensures ParseLines([heading] + lines) == ParseLines(lines)
  {
    assert heading[..5] == "Iface";
    assert ParseLine(heading) == Skip;
    assert ([heading] + lines)[1..] == lines;
  }

  lemma LinesOfTheTable(heading: string, rows: seq<Row>)
    requires '\n' !in heading && forall i :: 0 <= i < |rows| ==> Printable(rows[i])
    ensures Split(PrintTable(heading, rows), '\n') == [heading] + PrintRows(rows)
  {
    RowsAreLines(rows);
    var lines := [heading] + PrintRows(rows);
    forall i | 0 <= i < |lines|
      ensures '\n' !in lines[i]
    {
      assert i == 0 || lines[i] in PrintRows(rows);
    }
    SplitJoin(lines, '\n');
  }

  /** Reading a printed table gives back its routes, in order, but for those of interfaces that are
      named like the heading. */
  lemma ReadPrintedTable(heading: string, rows: seq<Row>)
    requires "Iface" <= heading && '\n' !in heading
    requires forall i :: 0 <= i < |rows| ==> Printable(rows[i])
    ensures ParseLines(Split(PrintTable(heading, rows), '\n')) == Routes(RoutesOf(Visible(rows)))
  {
    LinesOfTheTable(heading, rows);
    HeadingIsSkipped(heading, PrintRows(rows));
    ParsePrintedRows(rows);
  }

  /** So all routes come back exactly when no interface is. */
  lemma RoundTrip(heading: string, rows: seq<Row>)
    requires "Iface" <= heading && '\n' !in heading
    requires forall i :: 0 <= i < |rows| ==> Printable(rows[i])
    ensures ParseLines(Split(PrintTable(heading, rows), '\n')) == Routes(RoutesOf(rows)) <==>
            forall i :: 0 <= i < |rows| ==> !LooksLikeHeading(rows[i])
  {
    ReadPrintedTable(heading, rows);
    VisibleIsAllIff(rows);
    assert |RoutesOf(Visible(rows))| == |Visible(rows)| && |RoutesOf(rows)| == |rows|;
  }
}
