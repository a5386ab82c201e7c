/** src/ancestor.rs: what a version is compared as. Text is split at LF, CRLF and lone CR, each line
    becomes a digest, and the digests are kept as one text with an LF between them. */
module LineSummaries {
  import opened Basics
  import Ancestor

  type byte = n: nat | n < 256
  /** What SHA-1 answers; which line hashes to what is left open. */
  type Hash = h: seq<byte> | |h| == 20 witness seq(20, _ => 0)

  const MAX_SUMMARY_BYTES: nat := 256 * 1024
  const MAX_SUMMARY_LINES: nat := 4096

  predicate IsBreak(c: char) { c == '\n' || c == '\r' }

  predicate Unbroken(line: string) { forall k :: 0 <= k < |line| ==> !IsBreak(line[k]) }

  /** Where the first line terminator is, or the end. */
  function BreakAt(text: string): (at: nat)
    ensures at <= |text| && Unbroken(text[..at])
    ensures at < |text| ==> IsBreak(text[at])
  {
    if text == "" || IsBreak(text[0]) then 0 else BreakAt(text[1..]) + 1
  }

  /** How long the terminator at the front is: CRLF is one terminator of two characters. */
  function Skip(text: string): nat
    requires text != ""
  {
    if 2 <= |text| && text[0] == '\r' && text[1] == '\n' then 2 else 1
  }

  function FirstOf(text: string): (line: string)
    ensures Unbroken(line)
  {
    text[..BreakAt(text)]
  }

  /** What is left behind the first line and its terminator. */
  function RestOf(text: string): (rest: string)
    requires BreakAt(text) < |text|
    ensures |rest| < |text|
  {
    text[BreakAt(text) + Skip(text[BreakAt(text)..])..]
  }

  function Lines(text: string): seq<string>
    decreases |text|
  {
    if text == "" then []
    else if BreakAt(text) == |text| then [text]
    else [FirstOf(text)] + Lines(RestOf(text))
  }

  method SplitLines(text: string) returns (lines: seq<string>)
    ensures lines == Lines(text)
  {
    if text == "" {
      return [];
    }
    hide BreakAt, Lines;
    lines := [];
    var rest := text;
    var at := Find(rest);
    while at < |rest|
      invariant at == BreakAt(rest)
      invariant lines + Lines(rest) == Lines(text)
      decreases |rest|
    {
      var skip := if rest[at] == '\r' && at + 1 < |rest| && rest[at + 1] == '\n' then 2 else 1;
      assert rest[at + skip..] == RestOf(rest) && rest[..at] == FirstOf(rest);
      LinesStep(lines, rest);
      lines := lines + [rest[..at]];
      rest := rest[at + skip..];
      at := Find(rest);
    }
    LinesEnd(lines, rest);
    if rest != "" {
      lines := lines + [rest];
    }
  }

  lemma {:induction false} LinesStep(lines: seq<string>, rest: string)
    requires BreakAt(rest) < |rest|
    ensures lines + Lines(rest) == lines + [FirstOf(rest)] + Lines(RestOf(rest))
  {
    hide Skip, BreakAt, FirstOf, RestOf;
  }

  lemma {:induction false} LinesEnd(lines: seq<string>, rest: string)
    requires BreakAt(rest) == |rest|
    ensures lines + Lines(rest) == if rest == "" then lines else lines + [rest]
  {}

  method Find(text: string) returns (at: nat)
    ensures at == BreakAt(text)
  {
    at := 0;
    while at < |text| && !IsBreak(text[at])
      invariant 0 <= at <= |text|
      invariant at + BreakAt(text[at..]) == BreakAt(text)
    {
      assert text[at..][1..] == text[at + 1..];
      at := at + 1;
    }
  }

  // ----- what splitting means

  /** Every CRLF and lone CR rewritten as LF. */
  function Unix(text: string): string {
    if text == "" then ""
    else (if IsBreak(text[0]) then "\n" else [text[0]]) + Unix(text[Skip(text)..])
  }

  /** Each line followed by one LF. */
  function Terminated(lines: seq<string>): string {
    if lines == [] then "" else lines[0] + "\n" + Terminated(lines[1..])
  }

  function Breaks(text: string): nat {
    if text == "" then 0 else (if IsBreak(text[0]) then 1 else 0) + Breaks(text[Skip(text)..])
  }

  /** The text goes past its last terminator, so its last line is not terminated. */
  predicate HasRemainder(text: string) { text != "" && !IsBreak(text[|text| - 1]) }

  lemma {:induction false} UnixUnbroken(line: string, rest: string)
    requires Unbroken(line)
    ensures Unix(line + rest) == line + Unix(rest)
    ensures Breaks(line + rest) == Breaks(rest)
  {
    if line == "" {
      assert line + rest == rest;
    } else {
      assert (line + rest)[1..] == line[1..] + rest;
      UnixUnbroken(line[1..], rest);
    }
  }

  /** What one step of the splitter takes off, and what it leaves. */
  lemma {:induction false} FirstLine(text: string)
    requires BreakAt(text) < |text|
    ensures Unix(text) == FirstOf(text) + "\n" + Unix(RestOf(text))
    ensures Breaks(text) == Breaks(RestOf(text)) + 1
    ensures HasRemainder(text) <==> HasRemainder(RestOf(text))
  {
    var at := BreakAt(text);
    var (line, tail) := (text[..at], text[at..]);
    assert tail[Skip(tail)..] == RestOf(text);
    AtABreak(tail);
    RemainderGoesOn(text);
    UnixUnbroken(line, tail);
    hide Unix, Breaks, BreakAt, Skip, HasRemainder;
    assert line + tail == text;
    Regroup(line, "\n", Unix(RestOf(text)));
  }

  lemma {:induction false} RemainderGoesOn(text: string)
    requires BreakAt(text) < |text|
    ensures HasRemainder(text) <==> HasRemainder(RestOf(text))
  {
    hide BreakAt;
    var at := BreakAt(text);
    var skip := Skip(text[at..]);
    assert skip == 2 ==> text[at + 1] == '\n';
    assert at + skip == |text| ==> IsBreak(text[|text| - 1]);
  }

  lemma {:induction false} AtABreak(tail: string)
    requires tail != "" && IsBreak(tail[0])
    ensures Unix(tail) == "\n" + Unix(tail[Skip(tail)..]) && Breaks(tail) == Breaks(tail[Skip(tail)..]) + 1
  {}

  /** A text without a terminator is its own only line. */
  lemma {:induction false} OneLine(text: string)
    requires text != "" && BreakAt(text) == |text|
    ensures Unix(text) == text && Breaks(text) == 0 && HasRemainder(text) && Unbroken(text)
    ensures Terminated([text]) == text + "\n"
  {
    assert text[..|text|] == text;
    assert !IsBreak(text[..|text|][|text| - 1]);
    UnixUnbroken(text, "");
    assert text + "" == text;
  }

  /** Splitting loses exactly the spelling of the terminators and whether the last line had one:
      the lines, each terminated, are the text with every terminator rewritten as LF. */
  lemma {:induction false} LinesRebuildTheText(text: string)
    ensures Terminated(Lines(text)) == Unix(text) + (if HasRemainder(text) then "\n" else "")
    decreases |text|
  {
    if text == "" {
    } else if BreakAt(text) == |text| {
      hide BreakAt, Unix, HasRemainder, Terminated;
      OneLine(text);
    } else {
      hide Unix, Terminated, BreakAt, HasRemainder, FirstOf, RestOf;
      FirstLine(text);
      LinesRebuildTheText(RestOf(text));
      TerminatedOne(FirstOf(text), Lines(RestOf(text)));
      Regroup(FirstOf(text) + "\n", Unix(RestOf(text)), if HasRemainder(RestOf(text)) then "\n" else "");
    }
  }

  lemma {:induction false} TerminatedOne(line: string, lines: seq<string>)
    ensures Terminated([line] + lines) == line + "\n" + Terminated(lines)
  {
    assert ([line] + lines)[1..] == lines;
  }

  /** No line holds a terminator, and there is one line per terminator plus one for a remainder. */
  lemma {:induction false} LinesCounted(text: string)
    ensures forall k :: 0 <= k < |Lines(text)| ==> Unbroken(Lines(text)[k])
    ensures |Lines(text)| == Breaks(text) + (if HasRemainder(text) then 1 else 0)
    decreases |text|
  {
    if text == "" {
    } else if BreakAt(text) == |text| {
      OneLine(text);
    } else {
      hide Breaks, HasRemainder, Unbroken, BreakAt, FirstOf, RestOf;
      FirstLine(text);
      LinesCounted(RestOf(text));
    }
  }

  lemma {:induction false} BreakAfter(line: string, tail: string)
    requires Unbroken(line) && tail != "" && IsBreak(tail[0])
    ensures BreakAt(line + tail) == |line|
  {
    if line == "" {
      assert line + tail == tail;
    } else {
      assert (line + tail)[1..] == line[1..] + tail;
      BreakAfter(line[1..], tail);
    }
  }

  lemma {:induction false} LinesFirst(line: string, rest: string)
    requires Unbroken(line)
    ensures Lines(line + "\n" + rest) == [line] + Lines(rest)
  {
    var text := line + "\n" + rest;
    assert text == line + ("\n" + rest);
    BreakAfter(line, "\n" + rest);
    hide BreakAt;
    assert text[|line|..][0] == '\n';
    assert text[|line| + 1..] == rest && text[..|line|] == line;
  }

  /** What ends a line: LF, CRLF, or a CR that no LF follows, and nothing else does. These four say what
      the lines of every text are. */
  lemma {:induction false} LineEndings(line: string, rest: string)
    requires '\n' !in line && '\r' !in line
    ensures Lines(line) == if line == "" then [] else [line]
    ensures Lines(line + "\n" + rest) == [line] + Lines(rest)
    ensures Lines(line + "\r\n" + rest) == [line] + Lines(rest)
    ensures rest == "" || rest[0] != '\n' ==> Lines(line + "\r" + rest) == [line] + Lines(rest)
  {
    forall k | 0 <= k < |line| ensures !IsBreak(line[k]) { assert line[k] in line; }
    LinesFirst(line, rest);
    NoLineEnd(line);
    LineEndsWith(line, "\r\n", rest);
    if rest == "" || rest[0] != '\n' { LineEndsWith(line, "\r", rest); }
  }

  lemma {:induction false} NoLineEnd(line: string)
    requires Unbroken(line)
    ensures BreakAt(line) == |line|
  {
    assert line[..|line|] == line;
  }

  lemma {:induction false} LineEndsWith(line: string, end: string, rest: string)
    requires Unbroken(line) && (end == "\r\n" || (end == "\r" && (rest == "" || rest[0] != '\n')))
    ensures Lines(line + end + rest) == [line] + Lines(rest)
  {
    var text := line + end + rest;
    assert text == line + (end + rest);
    BreakAfter(line, end + rest);
    assert text[|line|..] == end + rest && text[|line| + |end|..] == rest && text[..|line|] == line;
    assert Skip(end + rest) == |end| by {
      assert |end| == 1 && rest != "" ==> (end + rest)[1] == rest[0];
      assert |end| == 2 ==> (end + rest)[1] == '\n';
    }
    hide BreakAt, Skip;
  }

  /** Any unbroken lines, each terminated, split back into themselves. */
  lemma {:induction false} TerminatedSplitsBack(lines: seq<string>)
    requires forall k :: 0 <= k < |lines| ==> Unbroken(lines[k])
    ensures Lines(Terminated(lines)) == lines
  {
    if lines != [] {
      LinesFirst(lines[0], Terminated(lines[1..]));
      TerminatedSplitsBack(lines[1..]);
    }
  }

  /** Two texts split alike exactly when they differ in nothing but line endings and a final newline. */
  lemma {:induction false} SameLinesExactly(a: string, b: string)
    ensures Lines(a) == Lines(b) <==>
            Unix(a) + (if HasRemainder(a) then "\n" else "") == Unix(b) + (if HasRemainder(b) then "\n" else "")
  {
    LinesRebuildTheText(a);
    LinesRebuildTheText(b);
    LinesCounted(a);
    LinesCounted(b);
    TerminatedSplitsBack(Lines(a));
    TerminatedSplitsBack(Lines(b));
  }

  /** Rewriting the line endings first changes nothing. */
  lemma {:induction false} UnixSplitsAlike(text: string)
    ensures Lines(Unix(text)) == Lines(text)
  {
    UnixIsUnix(text);
    SameLinesExactly(Unix(text), text);
  }

  lemma {:induction false} UnixOfLf(first: char, rest: string)
    requires first != '\r'
    ensures Unix([first] + rest) == [first] + Unix(rest)
  {
    assert ([first] + rest)[1..] == rest;
  }

  lemma {:induction false} UnixIsUnix(text: string)
    ensures Unix(Unix(text)) == Unix(text)
    ensures HasRemainder(Unix(text)) <==> HasRemainder(text)
    decreases |text|
  {
    if text != "" {
      var first := if IsBreak(text[0]) then '\n' else text[0];
      var rest := text[Skip(text)..];
      UnixIsUnix(rest);
      assert Unix(text) == [first] + Unix(rest);
      UnixOfLf(first, Unix(rest));
      UnixEmpty(rest);
      hide Unix;
      RemainderBehind(text, first, Unix(rest));
    }
  }

  lemma {:induction false} UnixEmpty(text: string)
    ensures Unix(text) == "" <==> text == ""
  {}

  lemma {:induction false} RemainderBehind(text: string, first: char, rest: string)
    requires text != "" && (IsBreak(first) <==> IsBreak(text[0]))
    requires rest == "" <==> text[Skip(text)..] == ""
    requires HasRemainder(rest) <==> HasRemainder(text[Skip(text)..])
    ensures HasRemainder([first] + rest) <==> HasRemainder(text)
  {}

  // ----- digests and the stored form

  datatype LineSummary = LineSummary(lines: seq<string>)

  predicate IsHexDigit(c: char) { '0' <= c <= '9' || 'a' <= c <= 'f' }

  predicate IsHex(text: string) { |text| % 2 == 0 && forall k :: 0 <= k < |text| ==> IsHexDigit(text[k]) }

  function HexDigit(n: nat): (digit: char)
    requires n < 16
    ensures IsHexDigit(digit)
  {
    if n < 10 then ('0' as int + n) as char else ('a' as int + n - 10) as char
  }

  function HexDigits(b: byte): (digits: string)
    ensures |digits| == 2 && IsHex(digits)
  {
    [HexDigit(b / 16), HexDigit(b % 16)]
  }

  function Hex(bytes: seq<byte>): (hex: string)
    ensures |hex| == 2 * |bytes| && IsHex(hex)
  {
    if bytes == [] then "" else HexDigits(bytes[0]) + Hex(bytes[1..])
  }

  /** What a hex digit, lower-case, stands for. */
  function HexValue(digit: char): (value: nat)
    requires IsHexDigit(digit)
    ensures value < 16
  {
    if '0' <= digit <= '9' then digit as int - '0' as int else digit as int - 'a' as int + 10
  }

  /** Two digits a byte, the high one first. */
  function Unhex(hex: string): seq<byte>
    requires IsHex(hex)
  {
    if hex == "" then [] else [16 * HexValue(hex[0]) + HexValue(hex[1])] + Unhex(hex[2..])
  }

  lemma {:induction false} HexReadsBack(bytes: seq<byte>)
    ensures Unhex(Hex(bytes)) == bytes
  {
    if bytes != [] {
      DigitsOf(bytes[0]);
      HexReadsBack(bytes[1..]);
      hide HexDigits, HexValue, IsHex, Unhex;
      UnhexOne(HexDigits(bytes[0]), Hex(bytes[1..]));
      assert bytes == [bytes[0]] + bytes[1..];
    }
  }

  lemma {:induction false} UnhexOne(digits: string, hex: string)
    requires |digits| == 2 && IsHex(digits) && IsHex(hex)
    ensures IsHex(digits + hex) && Unhex(digits + hex) == Unhex(digits) + Unhex(hex)
  {
    hide HexValue;
    assert digits[2..] == "" && (digits + hex)[2..] == hex;
  }

  lemma {:induction false} DigitsOf(b: byte)
    ensures Unhex(HexDigits(b)) == [b]
  {
    OneDigit(b / 16);
    OneDigit(b % 16);
    hide HexValue, HexDigit;
    assert HexDigits(b)[2..] == "";
  }

  lemma {:induction false} OneDigit(n: nat)
    requires n < 16
    ensures HexValue(HexDigit(n)) == n
  {}

  /** The first eight bytes of the line's hash, in hex. */
  function LineDigest(sha1: string -> Hash, line: string): (digest: string)
    ensures |digest| == 16 && '\n' !in digest
  {
    Hex(sha1(line)[..8])
  }

  function Digests(sha1: string -> Hash, lines: seq<string>): (digests: seq<string>)
    ensures |digests| == |lines| && forall k :: 0 <= k < |lines| ==> digests[k] == LineDigest(sha1, lines[k])
  {
    seq(|lines|, i requires 0 <= i < |lines| => LineDigest(sha1, lines[i]))
  }

  function Utf8Length(text: string): nat {
    if text == "" then 0
    else (if text[0] < '\U{80}' then 1 else if text[0] < '\U{800}' then 2 else if text[0] < '\U{10000}' then 3 else 4)
         + Utf8Length(text[1..])
  }

  function Of(sha1: string -> Hash, text: string): Option<LineSummary> {
    if Utf8Length(text) > MAX_SUMMARY_BYTES then None
    else if |Lines(text)| > MAX_SUMMARY_LINES then None
    else Some(LineSummary(Digests(sha1, Lines(text))))
  }

  /** Two lines have one digest exactly when their hashes begin with the same eight bytes, and those bytes
      can be read off it. */
  lemma {:induction false} DigestsTellHashes(sha1: string -> Hash, x: string, y: string)
    ensures LineDigest(sha1, x) == LineDigest(sha1, y) <==> sha1(x)[..8] == sha1(y)[..8]
    ensures IsHex(LineDigest(sha1, x)) && Unhex(LineDigest(sha1, x)) == sha1(x)[..8]
  {
    HexReadsBack(sha1(x)[..8]);
    HexReadsBack(sha1(y)[..8]);
  }

  lemma {:induction false} Utf8Concat(a: string, b: string)
    ensures Utf8Length(a + b) == Utf8Length(a) + Utf8Length(b)
  {
    if a == "" {
      assert a + b == b;
    } else {
      assert (a + b)[1..] == a[1..] + b;
      Utf8Concat(a[1..], b);
    }
  }

  /** A summary is made exactly of a text of at most 256 KiB in UTF-8 (section 3 of RFC 3629) and at most
      4096 lines, and has one digest for each line, in order. */
  lemma {:induction false} SummariesMade(sha1: string -> Hash, text: string, a: string, c: char)
    ensures Of(sha1, text).Some? <==> Utf8Length(text) <= 262_144 && |Lines(text)| <= 4096
    ensures Of(sha1, text).Some? ==>
              var digests := Of(sha1, text).value.lines;
              && |digests| == |Lines(text)|
              && forall k :: 0 <= k < |digests| ==> digests[k] == LineDigest(sha1, Lines(text)[k])
    ensures Utf8Length("") == 0
    ensures Utf8Length(a + [c]) - Utf8Length(a) ==
              var code := c as int; if code <= 0x7f then 1 else if code <= 0x7ff then 2 else if code <= 0xffff then 3 else 4
  {
    Utf8Concat(a, [c]);
    assert [c][1..] == "";
  }

  function Join(parts: seq<string>): string {
    if parts == [] then "" else if |parts| == 1 then parts[0] else parts[0] + "\n" + Join(parts[1..])
  }

  function SplitOnNewline(text: string): (parts: seq<string>)
    ensures parts != []
  {
    if text == "" then [""]
    else if text[0] == '\n' then [""] + SplitOnNewline(text[1..])
    else var parts := SplitOnNewline(text[1..]); [[text[0]] + parts[0]] + parts[1..]
  }

  function Encode(summary: LineSummary): string { Join(summary.lines) }

  function Decode(stored: string): LineSummary {
    LineSummary(if stored == "" then [] else SplitOnNewline(stored))
  }

  lemma {:induction false} SplitAfter(part: string, rest: string)
    requires '\n' !in part
    ensures SplitOnNewline(part + "\n" + rest) == [part] + SplitOnNewline(rest)
    ensures SplitOnNewline(part) == [part]
  {
    if part == "" {
      assert (part + "\n" + rest)[1..] == rest;
    } else {
      assert (part + "\n" + rest)[1..] == part[1..] + "\n" + rest;
      SplitAfter(part[1..], rest);
      assert part == [part[0]] + part[1..];
    }
  }

  lemma {:induction false} SplitJoined(parts: seq<string>)
    requires parts != [] && forall k :: 0 <= k < |parts| ==> '\n' !in parts[k]
    ensures SplitOnNewline(Join(parts)) == parts
  {
    SplitAfter(parts[0], if |parts| == 1 then "" else Join(parts[1..]));
    if |parts| > 1 {
      SplitJoined(parts[1..]);
    }
  }

  lemma {:induction false} SplitParts(text: string)
    ensures forall k :: 0 <= k < |SplitOnNewline(text)| ==> '\n' !in SplitOnNewline(text)[k]
  {
    if text != "" { SplitParts(text[1..]); }
  }

  /** The stored form reads back exactly when no digest holds a newline and the summary is not the one
      it cannot tell from an empty file: a single empty digest. */
  lemma {:induction false} StoredFormReadsBack(summary: LineSummary)
    ensures Decode(Encode(summary)) == summary <==>
            summary.lines != [""] && forall k :: 0 <= k < |summary.lines| ==> '\n' !in summary.lines[k]
  {
    var lines := summary.lines;
    if lines != [] && forall k :: 0 <= k < |lines| ==> '\n' !in lines[k] {
      SplitJoined(lines);
      if |lines| > 1 {
        assert Join(lines) != "";
      }
    } else if lines != [] && Decode(Encode(summary)) == summary {
      SplitParts(Encode(summary));
    }
  }

  /** And so every summary the engine makes survives being stored. */
  lemma {:induction false} MadeSummariesSurvive(sha1: string -> Hash, text: string)
    requires Of(sha1, text).Some?
    ensures Decode(Encode(Of(sha1, text).value)) == Of(sha1, text).value
  {
    var summary := Of(sha1, text).value;
    StoredFormReadsBack(summary);
    assert summary.lines != [] ==> |summary.lines[0]| == 16;
  }

  lemma {:induction false} JoinedLines(parts: seq<string>)
    requires forall k :: 0 <= k < |parts| ==> parts[k] != "" && Unbroken(parts[k])
    ensures Lines(Join(parts)) == parts
  {
    if |parts| == 1 {
      NoLineEnd(parts[0]);
    } else if parts != [] {
      LinesFirst(parts[0], Join(parts[1..]));
      JoinedLines(parts[1..]);
    }
  }

  /** The stored form is a text whose lines are the digests, in order. */
  lemma {:induction false} StoredFormHasADigestALine(sha1: string -> Hash, text: string)
    requires Of(sha1, text).Some?
    ensures Lines(Encode(Of(sha1, text).value)) == Of(sha1, text).value.lines
  {
    var digests := Of(sha1, text).value.lines;
    forall k | 0 <= k < |digests| ensures digests[k] != "" && Unbroken(digests[k]) {
      HexIsUnbroken(sha1(Lines(text)[k])[..8]);
    }
    JoinedLines(digests);
  }

  lemma {:induction false} HexIsUnbroken(bytes: seq<byte>)
    ensures Unbroken(Hex(bytes))
  {
    forall k | 0 <= k < |Hex(bytes)| ensures !IsBreak(Hex(bytes)[k]) {
      assert IsHexDigit(Hex(bytes)[k]);
    }
  }

  /** No line of the one has a hash that begins as that of a different line of the other does. */
  ghost predicate NoCollision(sha1: string -> Hash, a: seq<string>, b: seq<string>) {
    forall x, y :: x in a && y in b && sha1(x)[..8] == sha1(y)[..8] ==> x == y
  }

  /** Two versions that differ only in line endings or a final newline are "unchanged" on the card, always;
      and no others are, short of a digest shared by two of their lines. */
  lemma {:induction false} InvisibleDifferences(sha1: string -> Hash, ancestor: string, current: string)
    requires Of(sha1, ancestor).Some? && Of(sha1, current).Some?
    ensures var facts := Ancestor.Compared(Of(sha1, ancestor).value.lines, Of(sha1, current).value.lines);
            && (Lines(ancestor) == Lines(current) ==> facts.Some? && facts.value.IsUnchanged())
            && (NoCollision(sha1, Lines(ancestor), Lines(current)) && facts.Some? && facts.value.IsUnchanged() ==>
                  Lines(ancestor) == Lines(current))
  {
    var (a, c) := (Of(sha1, ancestor).value.lines, Of(sha1, current).value.lines);
    Ancestor.UnchangedExactlyWhenEqual(a, c);
    if a == c && NoCollision(sha1, Lines(ancestor), Lines(current)) {
      forall k | 0 <= k < |a| ensures Lines(ancestor)[k] == Lines(current)[k] {
        assert a[k] == LineDigest(sha1, Lines(ancestor)[k]) && c[k] == LineDigest(sha1, Lines(current)[k]);
        DigestsTellHashes(sha1, Lines(ancestor)[k], Lines(current)[k]);
      }
    }
  }
}
