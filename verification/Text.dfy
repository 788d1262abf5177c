/** The string operations of Go's standard library that the modelled code uses, on ASCII
    text: Split and Join, TrimSpace, Atoi and %d, and hexadecimal bytes. */
module Text {
  import opened Options

  /** strings.Split with a one-character separator: always at least one piece. */
  function Split(s: string, sep: char): (pieces: seq<string>)
    ensures |pieces| > 0
  {
    if s == "" then [""]
    else
      var rest := Split(s[1..], sep);
      if s[0] == sep then [""] + rest else [[s[0]] + rest[0]] + rest[1..]
  }

  function Join(pieces: seq<string>, sep: char): string
    requires |pieces| > 0
  {
    if |pieces| == 1 then pieces[0] else pieces[0] + [sep] + Join(pieces[1..], sep)
  }

  lemma {:induction false} SplitFirst(piece: string, rest: string, sep: char)
    requires sep !in piece
    ensures Split(piece, sep) == [piece]
    ensures Split(piece + [sep] + rest, sep) == [piece] + Split(rest, sep)
  {
    if piece == "" {
      assert piece + [sep] + rest == [sep] + rest;
    } else {
      SplitFirst(piece[1..], rest, sep);
      assert [piece[0]] + piece[1..] == piece;
      var whole := piece + [sep] + rest;
      assert whole[1..] == piece[1..] + [sep] + rest;
    }
  }

  /** Pieces that do not hold the separator survive joining and splitting ... */
  lemma {:induction false} SplitJoin(pieces: seq<string>, sep: char)
    requires |pieces| > 0 && forall i :: 0 <= i < |pieces| ==> sep !in pieces[i]
    ensures Split(Join(pieces, sep), sep) == pieces
  {
    if |pieces| == 1 {
      SplitFirst(pieces[0], "", sep);
    } else {
      SplitJoin(pieces[1..], sep);
      SplitFirst(pieces[0], Join(pieces[1..], sep), sep);
    }
  }

  /** ... and any text survives splitting and joining, into pieces without the separator. */
  lemma {:induction false} JoinSplit(s: string, sep: char)
    ensures Join(Split(s, sep), sep) == s
    ensures forall i :: 0 <= i < |Split(s, sep)| ==> sep !in Split(s, sep)[i]
  {
    if s != "" {
      JoinSplit(s[1..], sep);
      var rest := Split(s[1..], sep);
      if s[0] == sep {
        assert ([""] + rest)[1..] == rest;
      } else if |rest| > 1 {
        assert ([[s[0]] + rest[0]] + rest[1..])[1..] == rest[1..];
      }
    }
  }

  predicate IsSpace(c: char) {
    c == ' ' || c == '\t' || c == '\n' || c == '\r' || c == '\U{B}' || c == '\U{C}'
  }

  function TrimLeft(s: string): string {
    if s != "" && IsSpace(s[0]) then TrimLeft(s[1..]) else s
  }

  function TrimRight(s: string): string {
    if s != "" && IsSpace(s[|s| - 1]) then TrimRight(s[..|s| - 1]) else s
  }

  function TrimSpace(s: string): string {
    TrimRight(TrimLeft(s))
  }

  predicate AllSpace(s: string) {
    forall i :: 0 <= i < |s| ==> IsSpace(s[i])
  }

  /** What is cut off is the white space at both ends, and all of it. */
  lemma TrimSpaceCuts(s: string) returns (front: string, back: string)
    ensures s == front + TrimSpace(s) + back && AllSpace(front) && AllSpace(back)
    ensures var r := TrimSpace(s); r != "" ==> !IsSpace(r[0]) && !IsSpace(r[|r| - 1])
  {
    front := TrimLeftCuts(s);
    back := TrimRightCuts(TrimLeft(s));
  }

  lemma {:induction false} TrimLeftCuts(s: string) returns (front: string)
    ensures s == front + TrimLeft(s) && AllSpace(front)
    ensures TrimLeft(s) != "" ==> !IsSpace(TrimLeft(s)[0])
  {
    front := "";
    if s != "" && IsSpace(s[0]) {
      var rest := TrimLeftCuts(s[1..]);
      front := [s[0]] + rest;
      assert s == [s[0]] + s[1..];
    }
  }

  lemma {:induction false} TrimRightCuts(s: string) returns (back: string)
    ensures s == TrimRight(s) + back && AllSpace(back)
    ensures TrimRight(s) != "" ==> !IsSpace(TrimRight(s)[|TrimRight(s)| - 1])
  {
    back := "";
    if s != "" && IsSpace(s[|s| - 1]) {
      var rest := TrimRightCuts(s[..|s| - 1]);
      back := rest + [s[|s| - 1]];
      assert s == s[..|s| - 1] + [s[|s| - 1]];
    }
  }

  /** By their codes: tab, newline, vertical tab, form feed, carriage return and space. */
  lemma SpacesByCode(c: char)
    ensures IsSpace(c) <==> 9 <= c as int <= 13 || c as int == 32
  {
  }

  function Spaces(n: nat): string {
    seq(n, _ => ' ')
  }

  lemma TrimPadded(s: string, n: nat)
    requires s != "" && !IsSpace(s[0]) && !IsSpace(s[|s| - 1])
    ensures TrimSpace(s + Spaces(n)) == s
  {
    assert TrimLeft(s + Spaces(n)) == s + Spaces(n);
    TrimRightPadded(s, n);
  }

  lemma {:induction false} TrimRightPadded(s: string, n: nat)
    requires s != "" && !IsSpace(s[|s| - 1])
    ensures TrimRight(s + Spaces(n)) == s
  {
    if n == 0 {
      assert s + Spaces(0) == s;
    } else {
      TrimRightPadded(s, n - 1);
      assert (s + Spaces(n))[..|s| + n - 1] == s + Spaces(n - 1);
    }
  }

  /** The words of a text. word is the part of the current one before the text. */
  function FieldsFrom(word: string, text: string): seq<string>
    decreases |text|
  {
    if text == "" then (if word == "" then [] else [word])
    else if IsSpace(text[0]) then (if word == "" then [] else [word]) + FieldsFrom("", text[1..])
    else FieldsFrom(word + [text[0]], text[1..])
  }

  /** strings.Fields. */
  function Fields(text: string): seq<string> {
    FieldsFrom("", text)
  }

  /** A word is not empty and holds no white space. */
  predicate IsWord(s: string) {
    s != "" && forall i :: 0 <= i < |s| ==> !IsSpace(s[i])
  }

  lemma {:induction false} FieldsOfWord(before: string, word: string)
    requires forall i :: 0 <= i < |word| ==> !IsSpace(word[i])
    ensures FieldsFrom(before, word) == if before + word == "" then [] else [before + word]
    ensures forall text: string :: FieldsFrom(before, word + " " + text) ==
              (if before + word == "" then [] else [before + word]) + Fields(text)
    decreases |word|
  {
    if word == "" {
      assert before + "" == before;
      forall text: string
        ensures FieldsFrom(before, word + " " + text) == (if before == "" then [] else [before]) + Fields(text)
      {
        assert (word + " " + text)[1..] == text;
      }
    } else {
      FieldsOfWord(before + [word[0]], word[1..]);
      assert before + [word[0]] + word[1..] == before + word;
      forall text: string
        ensures FieldsFrom(before, word + " " + text) == FieldsFrom(before + [word[0]], word[1..] + " " + text)
      {
        assert (word + " " + text)[1..] == word[1..] + " " + text;
      }
    }
  }

  /** White space parts words and is in none of them, whatever there is of it. */
  lemma {:induction false} FieldsOfParts(before: string, a: string, c: char, b: string)
    requires IsSpace(c)
    ensures FieldsFrom(before, a + [c] + b) == FieldsFrom(before, a) + Fields(b)
    decreases |a|
  {
    var all := a + [c] + b;
    if a == "" {
      assert all[1..] == b;
    } else {
      assert all[1..] == a[1..] + [c] + b;
      if IsSpace(a[0]) {
        FieldsOfParts("", a[1..], c, b);
      } else {
        FieldsOfParts(before + [a[0]], a[1..], c, b);
      }
    }
  }

  /** Words joined by spaces are found again. */
  lemma {:induction false} FieldsOfJoined(words: seq<string>)
    requires |words| > 0 && forall i :: 0 <= i < |words| ==> IsWord(words[i])
    ensures Fields(Join(words, ' ')) == words
  {
    FieldsOfWord("", words[0]);
    assert "" + words[0] == words[0];
    if |words| > 1 {
      FieldsOfJoined(words[1..]);
      assert Join(words, ' ') == words[0] + " " + Join(words[1..], ' ');
    }
  }

  /** The last place of a character. */
  function LastIndex(s: string, c: char): (r: Option<nat>)
    ensures r.None? <==> c !in s
    ensures r.Some? ==> r.value < |s| && s[r.value] == c && c !in s[r.value + 1..]
  {
    if s == "" then None
    else if s[|s| - 1] == c then Some(|s| - 1)
    else
      assert s == s[..|s| - 1] + [s[|s| - 1]];
      LastIndex(s[..|s| - 1], c)
  }

  lemma {:induction false} LastIndexOfSum(a: string, b: string, c: char)
    ensures LastIndex(a + b, c) == if c in b then Some(|a| + LastIndex(b, c).value) else LastIndex(a, c)
  {
    if b == "" {
      assert a + b == a;
    } else {
      assert (a + b)[..|a + b| - 1] == a + b[..|b| - 1] && b == b[..|b| - 1] + [b[|b| - 1]];
      LastIndexOfSum(a, b[..|b| - 1], c);
    }
  }

  predicate IsDigit(c: char) {
    '0' <= c <= '9'
  }

  function DigitOf(n: nat): (c: char)
    requires n < 10
    ensures IsDigit(c) && c as int - '0' as int == n
  {
    (n + '0' as int) as char
  }

  function ParseDigits(s: string): (n: nat)
    requires forall i :: 0 <= i < |s| ==> IsDigit(s[i])
  {
    if s == "" then 0
    else
      assert IsDigit(s[|s| - 1]);
      10 * ParseDigits(s[..|s| - 1]) + (s[|s| - 1] as int - '0' as int)
  }

  /** %d of a number that is not negative. */
  function PrintDigits(n: nat): (s: string)
    ensures s != "" && forall i :: 0 <= i < |s| ==> IsDigit(s[i])
  {
    if n < 10 then [DigitOf(n)] else PrintDigits(n / 10) + [DigitOf(n % 10)]
  }

  lemma {:induction false} ParsePrintDigits(n: nat)
    ensures ParseDigits(PrintDigits(n)) == n
  {
    var s := PrintDigits(n);
    if n < 10 {
      assert s[..|s| - 1] == "";
    } else {
      ParsePrintDigits(n / 10);
      assert s[..|s| - 1] == PrintDigits(n / 10);
    }
  }

  /** %d. */
  function Itoa(n: int): string {
    if n < 0 then "-" + PrintDigits(-n) else PrintDigits(n)
  }

  const INT64_LIMIT := 0x8000_0000_0000_0000

  predicate AllDigits(s: string) {
    forall i :: 0 <= i < |s| ==> IsDigit(s[i])
  }

  /** strconv.Atoi: an optional sign and at least one digit, within 64 bits. */
  function Atoi(s: string): Option<int> {
    var negative := s != "" && s[0] == '-';
    var digits := if s != "" && (s[0] == '-' || s[0] == '+') then s[1..] else s;
    if digits == "" || !AllDigits(digits) then None
    else
      var n: int := ParseDigits(digits);
      if negative then (if n <= INT64_LIMIT then Some(-n) else None)
      else (if n < INT64_LIMIT then Some(n) else None)
  }

  lemma AtoiOfItoa(n: int)
    requires -INT64_LIMIT <= n < INT64_LIMIT
    ensures Atoi(Itoa(n)) == Some(n)
  {
    var digits := PrintDigits(if n < 0 then -n else n);
    ParsePrintDigits(if n < 0 then -n else n);
    assert IsDigit(digits[0]) && ("-" + digits)[1..] == digits;
    if n < 0 {
      AtoiOfDigits(digits, "-" + digits, true);
    } else {
      AtoiOfDigits(digits, digits, false);
    }
  }

  lemma AtoiOfDigits(digits: string, s: string, negative: bool)
    requires digits != "" && forall i :: 0 <= i < |digits| ==> IsDigit(digits[i])
    requires s == if negative then "-" + digits else digits
    ensures Atoi(s) ==
            var n: int := ParseDigits(digits);
            if negative then (if n <= INT64_LIMIT then Some(-n) else None)
            else (if n < INT64_LIMIT then Some(n) else None)
  {
    assert IsDigit(digits[0]);
    if negative {
      assert s[1..] == digits;
    }
  }

  /** Whatever is read is digits, with a sign in front of them or none. */
  lemma AtoiIff(s: string, n: int)
    ensures Atoi(s) == Some(n) <==>
            -INT64_LIMIT <= n < INT64_LIMIT && exists digits :: IsWritten(digits, s, n)
  {
    if Atoi(s).Some? {
      AtoiReads(s);
    }
    forall digits | IsWritten(digits, s, n) && -INT64_LIMIT <= n < INT64_LIMIT
      ensures Atoi(s) == Some(n)
    {
      assert IsDigit(digits[0]);
      assert ("-" + digits)[1..] == digits && ("+" + digits)[1..] == digits;
    }
  }

  lemma AtoiReads(s: string)
    requires Atoi(s).Some?
    ensures exists digits :: IsWritten(digits, s, Atoi(s).value)
  {
    if s[0] == '-' {
      assert s == "-" + s[1..];
      assert IsWritten(s[1..], s, Atoi(s).value);
    } else if s[0] == '+' {
      assert s == "+" + s[1..];
      assert IsWritten(s[1..], s, Atoi(s).value);
    } else {
      assert IsWritten(s, s, Atoi(s).value);
    }
  }

  ghost predicate IsWritten(digits: string, s: string, n: int) {
    && digits != "" && AllDigits(digits)
    && ((n == ParseDigits(digits) && (s == digits || s == "+" + digits)) ||
        (n == -(ParseDigits(digits) as int) && s == "-" + digits))
  }

  type Byte = b: int | 0 <= b < 256

  function HexValue(c: char): Option<int> {
    if '0' <= c <= '9' then Some(c as int - '0' as int)
    else if 'a' <= c <= 'f' then Some(c as int - 'a' as int + 10)
    else if 'A' <= c <= 'F' then Some(c as int - 'A' as int + 10)
    else None
  }

  /** The digits in either case. */
  lemma HexDigitsAre(c: char, v: int)
    ensures HexValue(c) == Some(v) <==>
            0 <= v < 16 && (c == "0123456789abcdef"[v] || c == "0123456789ABCDEF"[v])
  {
  }

  /** hex.DecodeString: None for an odd length or a character that is no hex digit. */
  function HexDecode(s: string): Option<seq<Byte>> {
    if s == "" then Some([])
    else if |s| == 1 then None
    else
      match (HexValue(s[0]), HexValue(s[1]), HexDecode(s[2..]))
      case (Some(hi), Some(lo), Some(rest)) =>
        assert 0 <= hi < 16 && 0 <= lo < 16;
        Some([16 * hi + lo] + rest)
      case _ => None
  }

  /** Numbers are decimal. */
  lemma DecimalExample()
    ensures ParseDigits("1") == 1 && ParseDigits("10") == 10 && ParseDigits("204") == 204
  {
    assert "10"[..1] == "1" && "204"[..2] == "20" && "20"[..1] == "2";
    assert ParseDigits("2") == 2 && ParseDigits("20") == 20;
  }

  /** Two digits more are a byte more. */
  lemma HexDecodeMore(hi: char, lo: char, byte: Byte, s: string, bytes: seq<Byte>, more: string, moreBytes: seq<Byte>)
    requires HexValue(hi).Some? && HexValue(lo).Some? && byte == 16 * HexValue(hi).value + HexValue(lo).value
    requires HexDecode(s) == Some(bytes) && more == [hi, lo] + s && moreBytes == [byte] + bytes
    ensures HexDecode(more) == Some(moreBytes)
  {
    assert more[2..] == s;
  }

  predicate AllHex(s: string) {
    forall i :: 0 <= i < |s| ==> HexValue(s[i]).Some?
  }

  /** Text decodes exactly when it is an even number of hexadecimal digits, two for each byte. */
  lemma {:induction false} HexDecodes(s: string)
    ensures HexDecode(s).Some? <==> AllHex(s) && |s| % 2 == 0
    ensures HexDecode(s).Some? ==> 2 * |HexDecode(s).value| == |s|
  {
    if |s| >= 2 {
      HexDecodes(s[2..]);
      assert forall i :: 2 <= i < |s| ==> s[i] == s[2..][i - 2];
    }
  }

  function HexDigit(n: nat): (c: char)
    requires n < 16
    ensures HexValue(c) == Some(n) && !IsSpace(c)
  {
    if n < 10 then (n + '0' as int) as char else (n - 10 + 'A' as int) as char
  }

  /** %02X of each byte. */
  function HexEncode(bytes: seq<Byte>): (s: string)
    ensures |s| == 2 * |bytes|
    ensures forall i :: 0 <= i < |s| ==> !IsSpace(s[i])
  {
    if bytes == [] then "" else [HexDigit(bytes[0] / 16), HexDigit(bytes[0] % 16)] + HexEncode(bytes[1..])
  }

  lemma {:induction false} HexRoundTrip(bytes: seq<Byte>)
    ensures HexDecode(HexEncode(bytes)) == Some(bytes)
  {
    if bytes == [] {
    } else {
      HexRoundTrip(bytes[1..]);
      assert HexEncode(bytes)[2..] == HexEncode(bytes[1..]);
      assert [bytes[0]] + bytes[1..] == bytes;
    }
  }

  /** Go's < on strings. */
  predicate StringLess(a: string, b: string) {
    if b == "" then false
    else if a == "" then true
    else if a[0] == b[0] then StringLess(a[1..], b[1..])
    else a[0] < b[0]
  }

  lemma {:induction false} StringLessTrichotomy(a: string, b: string)
    ensures a == b <==> !StringLess(a, b) && !StringLess(b, a)
    ensures !(StringLess(a, b) && StringLess(b, a))
  {
    if a != "" && b != "" && a[0] == b[0] {
      StringLessTrichotomy(a[1..], b[1..]);
      assert a == [a[0]] + a[1..] && b == [b[0]] + b[1..];
    }
  }

  lemma {:induction false} StringLessTransitive(a: string, b: string, c: string)
    requires StringLess(a, b) && StringLess(b, c)
    ensures StringLess(a, c)
  {
    if a != "" && a[0] == b[0] == c[0] {
      StringLessTransitive(a[1..], b[1..], c[1..]);
    }
  }

  /** Not-less is transitive, as sorting needs it. */
  lemma StringNotLessTransitive(a: string, b: string, c: string)
    requires !StringLess(b, a) && !StringLess(c, b)
    ensures !StringLess(c, a)
  {
    StringLessTrichotomy(a, b);
    StringLessTrichotomy(b, c);
    StringLessTrichotomy(a, c);
    if StringLess(c, a) && a != b && b != c {
      StringLessTransitive(a, b, c);
    }
  }
}
