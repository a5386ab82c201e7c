/** src/schedule.rs: the one spelling of a schedule, its strict parser and its printer. */
module ScheduleText {
  import opened Basics
  import opened SweepSchedule

  const HOUR: nat := 3600 * NANOS

  // ----- printing

  function Digit(n: nat): (c: char)
    requires n < 10
    ensures IsDigit(c)
  {
    ('0' as int + n) as char
  }

  predicate IsDigit(c: char) { '0' <= c <= '9' }

  function DigitValue(c: char): (n: nat)
    requires IsDigit(c)
    ensures n < 10 && Digit(n) == c
    ensures forall k: nat :: k < 10 && Digit(k) == c ==> k == n
  {
    c as int - '0' as int
  }

  function TwoDigits(n: nat): string
    requires n < 100
  {
    [Digit(n / 10), Digit(n % 10)]
  }

  function Decimal(n: nat): (text: string)
    ensures forall k :: 0 <= k < |text| ==> IsDigit(text[k])
    ensures |text| == 1 <==> n < 10
    ensures |text| <= 2 <==> n < 100
    ensures text != "" && (text[0] == '0' <==> n == 0)
  {
    if n < 10 then [Digit(n)] else Decimal(n / 10) + [Digit(n % 10)]
  }

  function WeekdayToken(day: Weekday): (token: string)
    ensures ' ' !in token
  {
    match day
    case Sun => "sun" case Mon => "mon" case Tue => "tue" case Wed => "wed"
    case Thu => "thu" case Fri => "fri" case Sat => "sat"
  }

  function RenderTime(at: Time): string { TwoDigits(at / HOUR) + ":" + TwoDigits(at / MINUTE % 60) }

  function Render(s: Schedule): string {
    match s
    case Weekly(day, at) => "weekly " + (WeekdayToken(day) + " " + RenderTime(at))
    case Monthly(day, at) => "monthly day " + (Decimal(day) + ", " + RenderTime(at))
  }

  // ----- parsing

  /** Unicode White_Space, which the whole-value trim takes off. */
  predicate IsWhitespace(c: char) {
    '\U{9}' <= c <= '\U{d}' || c == ' ' || c == '\U{85}' || c == '\U{a0}' || c == '\U{1680}'
    || '\U{2000}' <= c <= '\U{200a}' || c == '\U{2028}' || c == '\U{2029}' || c == '\U{202f}'
    || c == '\U{205f}' || c == '\U{3000}'
  }

  function TrimStart(text: string): string {
    if text != "" && IsWhitespace(text[0]) then TrimStart(text[1..]) else text
  }

  function TrimEnd(text: string): string {
    if text != "" && IsWhitespace(text[|text| - 1]) then TrimEnd(text[..|text| - 1]) else text
  }

  function Trim(text: string): string { TrimEnd(TrimStart(text)) }

  function StripPrefix(text: string, prefix: string): (rest: Option<string>)
    ensures rest.Some? <==> prefix <= text
    ensures rest.Some? ==> text == prefix + rest.value
  {
    if prefix <= text then Some(text[|prefix|..]) else None
  }

  /** Around the first occurrence of the separator. */
  function SplitOnce(text: string, separator: string): (parts: Option<(string, string)>)
    ensures parts.Some? ==> text == parts.value.0 + separator + parts.value.1
  {
    if separator <= text then Some(("", text[|separator|..]))
    else if text == "" then None
    else match SplitOnce(text[1..], separator)
      case None => None
      case Some((before, after)) =>
        assert text == [text[0]] + text[1..];
        Some(([text[0]] + before, after))
  }

  function FromHms(hour: nat, minute: nat): Option<Time> {
    if hour < 24 && minute < 60 then Some(hour * HOUR + minute * MINUTE) else None
  }

  predicate AllDigits(text: string) { forall k :: 0 <= k < |text| ==> IsDigit(text[k]) }

  function ParseTime(text: string): Option<Time> {
    match SplitOnce(text, ":")
    case None => None
    case Some((hour, minute)) =>
      if |hour| != 2 || |minute| != 2 || !AllDigits(hour) || !AllDigits(minute) then None
      else FromHms(PairValue(hour), PairValue(minute))
  }

  function PairValue(text: string): (n: nat)
    requires |text| == 2 && AllDigits(text)
    ensures n < 100 && TwoDigits(n) == text
  {
    10 * DigitValue(text[0]) + DigitValue(text[1])
  }

  function ParseNumber(text: string): nat
    requires AllDigits(text)
  {
    if text == "" then 0 else 10 * ParseNumber(text[..|text| - 1]) + DigitValue(text[|text| - 1])
  }

  function ParseDayOfMonth(text: string): Option<nat> {
    if text == "" || |text| > 2 || text[0] == '0' then None
    else if !AllDigits(text) then None
    else
      var day := ParseNumber(text);
      if 1 <= day <= 31 then Some(day) else None
  }

  function ParseWeekday(token: string): Option<Weekday> {
    if token == "sun" then Some(Sun) else if token == "mon" then Some(Mon) else if token == "tue" then Some(Tue)
    else if token == "wed" then Some(Wed) else if token == "thu" then Some(Thu) else if token == "fri" then Some(Fri)
    else if token == "sat" then Some(Sat) else None
  }

  function ParseWeekly(rest: string): Option<Schedule> {
    match SplitOnce(rest, " ")
    case None => None
    case Some((day, at)) =>
      match (ParseWeekday(day), ParseTime(at))
      case (Some(d), Some(t)) => Some(Weekly(d, t))
      case _ => None
  }

  function ParseMonthly(rest: string): Option<Schedule> {
    match SplitOnce(rest, ", ")
    case None => None
    case Some((day, at)) =>
      match (ParseDayOfMonth(day), ParseTime(at))
      case (Some(d), Some(t)) => Some(Monthly(d, t))
      case _ => None
  }

  function Parse(text: string): Option<Schedule> {
    var trimmed := Trim(text);
    match StripPrefix(trimmed, "weekly ")
    case Some(rest) => ParseWeekly(rest)
    case None =>
      match StripPrefix(trimmed, "monthly day ")
      case Some(rest) => ParseMonthly(rest)
      case None => None
  }

  // ----- what the spelling is

  const DIGITS: string := "0123456789"

  /** A time is its two digits of the hour, a colon and its two digits of the minute. */
  lemma {:induction false} TimesAsPrinted(hour: nat, minute: nat)
    requires hour < 24 && minute < 60
    ensures RenderTime(hour * 3_600_000_000_000 + minute * 60_000_000_000) ==
            [DIGITS[hour / 10], DIGITS[hour % 10], ':', DIGITS[minute / 10], DIGITS[minute % 10]]
  {
    HourAndMinute(hour, minute);
    TwoDigitsAre(hour);
    TwoDigitsAre(minute);
    hide TwoDigits;
  }

  lemma {:induction false} TwoDigitsAre(n: nat)
    requires n < 100
    ensures TwoDigits(n) == [DIGITS[n / 10], DIGITS[n % 10]]
  {
    hide Digit;
    DigitAt(n / 10);
    DigitAt(n % 10);
  }

  lemma {:induction false} DigitAt(n: nat)
    requires n < 10
    ensures Digit(n) == DIGITS[n]
  {}

  /** The seven weekdays, three letters each, in the order of the week. */
  const WEEK: string := "montuewedthufrisatsun"

  /** The keyword, the weekday or the day of the month in as few digits as it takes, and the time. */
  lemma {:induction false} SchedulesAsPrinted(at: Time, weekday: Weekday, day: nat)
    requires day < 100
    ensures Render(Weekly(weekday, at)) ==
            "weekly " + (WEEK[3 * FromMonday(weekday)..3 * FromMonday(weekday) + 3] + " " + RenderTime(at))
    ensures Render(Monthly(day, at)) ==
            "monthly day " + ((if day < 10 then [DIGITS[day]] else [DIGITS[day / 10], DIGITS[day % 10]]) + ", " + RenderTime(at))
  {
    hide RenderTime, Digit;
    TokenInTheWeek(weekday);
    TwoDigitDay(day);
    hide Decimal, WeekdayToken;
  }

  lemma {:induction false} TokenInTheWeek(day: Weekday)
    ensures WeekdayToken(day) == WEEK[3 * FromMonday(day)..3 * FromMonday(day) + 3]
  {
    var at := 3 * FromMonday(day);
    assert WEEK[at] == WeekdayToken(day)[0] && WEEK[at + 1] == WeekdayToken(day)[1] && WEEK[at + 2] == WeekdayToken(day)[2];
    assert |WeekdayToken(day)| == 3;
    var token := WEEK[at..at + 3];
    assert forall k :: 0 <= k < 3 ==> token[k] == WEEK[at + k];
    hide WeekdayToken, FromMonday;
    ThreeLetters(WeekdayToken(day), token);
  }

  lemma {:induction false} ThreeLetters(a: string, b: string)
    requires |a| == |b| == 3 && a[0] == b[0] && a[1] == b[1] && a[2] == b[2]
    ensures a == b
  {}

  lemma {:induction false} TwoDigitDay(day: nat)
    requires day < 100
    ensures Decimal(day) == if day < 10 then [DIGITS[day]] else [DIGITS[day / 10], DIGITS[day % 10]]
  {
    hide Digit;
    if day < 10 {
      DigitAt(day);
    } else {
      DigitAt(day / 10);
      DigitAt(day % 10);
      assert Decimal(day / 10) == [Digit(day / 10)];
    }
  }

  // ----- one spelling

  /** What can be spelled at all: whole minutes, and a day of the month from 1 to 31. */
  predicate Spellable(s: Schedule) { s.Valid() && s.at % MINUTE == 0 }

  lemma {:induction false} SplitsHere(before: string, separator: string, after: string)
    requires separator != "" && separator[0] !in before
    ensures SplitOnce(before + separator + after, separator) == Some((before, after))
  {
    var text := before + separator + after;
    if before == "" {
      assert text == separator + after && text[|separator|..] == after;
    } else {
      assert text[0] == before[0] && !(separator <= text);
      assert text[1..] == before[1..] + separator + after;
      SplitsHere(before[1..], separator, after);
      assert [before[0]] + before[1..] == before;
    }
  }

  lemma {:induction false} WeekdayTokens(token: string, day: Weekday)
    ensures ParseWeekday(token) == Some(day) <==> token == WeekdayToken(day)
  {
    if token == WeekdayToken(day) {
      assert |token| == 3;
      assert token[0] == 's' ==> token[1] == 'u' || token[1] == 'a';
      assert token[0] == 't' ==> token[1] == 'u' || token[1] == 'h';
    }
  }

  lemma {:induction false} HourAndMinute(h: nat, m: nat)
    requires h < 24 && m < 60
    ensures var at := h * HOUR + m * MINUTE;
            at < 24 * HOUR && at / HOUR == h && at / MINUTE % 60 == m && at % MINUTE == 0
  {}

  lemma {:induction false} WholeMinutes(at: Time)
    requires at % MINUTE == 0
    ensures at / HOUR < 24 && at == at / HOUR * HOUR + at / MINUTE % 60 * MINUTE
  {}

  lemma {:induction false} PairReadsBack(n: nat)
    requires n < 100
    ensures AllDigits(TwoDigits(n)) && PairValue(TwoDigits(n)) == n
  {}

  lemma {:induction false} TimeReadsBack(at: Time)
    requires at % MINUTE == 0
    ensures ParseTime(RenderTime(at)) == Some(at)
  {
    var (h, m) := (at / HOUR, at / MINUTE % 60);
    WholeMinutes(at);
    hide TwoDigits, PairValue;
    PairReadsBack(h);
    PairReadsBack(m);
    SplitsHere(TwoDigits(h), ":", TwoDigits(m));
  }

  /** A time reads back from exactly its own text. */
  lemma {:induction false} TimeText(text: string, at: Time)
    ensures ParseTime(text) == Some(at) <==> text == RenderTime(at) && at % MINUTE == 0
  {
    if text == RenderTime(at) && at % MINUTE == 0 {
      TimeReadsBack(at);
    }
    if ParseTime(text) == Some(at) {
      hide TwoDigits;
      var (hour, minute) := SplitOnce(text, ":").value;
      HourAndMinute(PairValue(hour), PairValue(minute));
    }
  }

  lemma {:induction false} NumberText(n: nat)
    ensures ParseNumber(Decimal(n)) == n
  {
    if n >= 10 {
      NumberText(n / 10);
      assert Decimal(n)[..|Decimal(n)| - 1] == Decimal(n / 10);
    } else {
      assert Decimal(n)[..0] == "";
    }
  }

  lemma {:induction false} TextOfNumber(text: string)
    requires AllDigits(text) && 1 <= |text| <= 2 && text[0] != '0'
    ensures Decimal(ParseNumber(text)) == text
  {
    if |text| == 1 {
      assert text[..0] == "";
    } else {
      assert text[..1][..0] == "" && text[..1][0] == text[0];
      assert ParseNumber(text[..1]) == DigitValue(text[0]);
      assert ParseNumber(text) == 10 * DigitValue(text[0]) + DigitValue(text[1]);
    }
  }

  /** A day of the month reads back from exactly its own digits: no sign, no padding. */
  lemma {:induction false} DayText(text: string, day: nat)
    ensures ParseDayOfMonth(text) == Some(day) <==> text == Decimal(day) && 1 <= day <= 31
  {
    if text == Decimal(day) {
      NumberText(day);
    }
    if ParseDayOfMonth(text) == Some(day) {
      TextOfNumber(text);
    }
  }

  lemma {:induction false} WeeklyText(rest: string, s: Schedule)
    ensures ParseWeekly(rest) == Some(s) <==>
            s.Weekly? && Spellable(s) && rest == WeekdayToken(s.day) + " " + RenderTime(s.at)
  {
    if s.Weekly? {
      SplitsHere(WeekdayToken(s.day), " ", RenderTime(s.at));
      WeekdayTokens(WeekdayToken(s.day), s.day);
      TimeText(RenderTime(s.at), s.at);
      if ParseWeekly(rest) == Some(s) {
        var (day, at) := SplitOnce(rest, " ").value;
        WeekdayTokens(day, s.day);
        TimeText(at, s.at);
      }
    }
  }

  lemma {:induction false} MonthlyText(rest: string, s: Schedule)
    ensures ParseMonthly(rest) == Some(s) <==>
            s.Monthly? && Spellable(s) && rest == Decimal(s.dayOfMonth) + ", " + RenderTime(s.at)
  {
    if s.Monthly? {
      SplitsHere(Decimal(s.dayOfMonth), ", ", RenderTime(s.at));
      DayText(Decimal(s.dayOfMonth), s.dayOfMonth);
      TimeText(RenderTime(s.at), s.at);
      if ParseMonthly(rest) == Some(s) {
        var (day, at) := SplitOnce(rest, ", ").value;
        DayText(day, s.dayOfMonth);
        TimeText(at, s.at);
      }
    }
  }

  /** Exactly one spelling: a text reads as a schedule exactly when, trimmed, it is that schedule's
      printed form, and the schedule is one that can be spelled. */
  lemma {:induction false} ExactlyOneSpelling(text: string, s: Schedule)
    ensures Parse(text) == Some(s) <==> Spellable(s) && Trim(text) == Render(s)
  {
    var trimmed := Trim(text);
    assert "weekly "[0] == 'w' && "monthly day "[0] == 'm';
    if "weekly " <= trimmed {
      var rest := trimmed[|"weekly "|..];
      WeeklyText(rest, s);
      assert trimmed == "weekly " + rest;
      assert s.Weekly? && trimmed == Render(s) ==> rest == WeekdayToken(s.day) + " " + RenderTime(s.at);
      assert s.Monthly? ==> Render(s)[0] == 'm';
    } else if "monthly day " <= trimmed {
      var rest := trimmed[|"monthly day "|..];
      MonthlyText(rest, s);
      assert trimmed == "monthly day " + rest;
      assert s.Monthly? && trimmed == Render(s) ==> rest == Decimal(s.dayOfMonth) + ", " + RenderTime(s.at);
    }
  }

  lemma {:induction false} PrintedFormIsTrimmed(s: Schedule)
    ensures Trim(Render(s)) == Render(s)
  {
    EndsInText(s);
  }

  /** The 25 characters Unicode calls White_Space. */
  const WHITE_SPACE: set<char> := {
    '\U{9}', '\U{a}', '\U{b}', '\U{c}', '\U{d}', '\U{20}', '\U{85}', '\U{a0}', '\U{1680}',
    '\U{2000}', '\U{2001}', '\U{2002}', '\U{2003}', '\U{2004}', '\U{2005}', '\U{2006}', '\U{2007}', '\U{2008}',
    '\U{2009}', '\U{200a}', '\U{2028}', '\U{2029}', '\U{202f}', '\U{205f}', '\U{3000}'}

  predicate Blank(text: string) { forall k :: 0 <= k < |text| ==> text[k] in WHITE_SPACE }

  lemma {:induction false} WhitespaceIs(c: char)
    ensures IsWhitespace(c) <==> c in WHITE_SPACE
  {}

  lemma {:induction false} TrimFront(before: string, core: string) returns (left: string)
    requires core != "" && !IsWhitespace(core[0])
    ensures TrimStart(before + core) == left + core && (left == "" <==> Blank(before))
  {
    hide IsWhitespace;
    if before == "" {
      left := "";
      assert before + core == core;
    } else {
      WhitespaceIs(before[0]);
      assert (before + core)[1..] == before[1..] + core && Blank(before) == (before[0] in WHITE_SPACE && Blank(before[1..]));
      if IsWhitespace(before[0]) { left := TrimFront(before[1..], core); } else { left := before; }
    }
  }

  lemma {:induction false} TrimBack(core: string, behind: string) returns (left: string)
    requires core != "" && !IsWhitespace(core[|core| - 1])
    ensures TrimEnd(core + behind) == core + left && (left == "" <==> Blank(behind))
  {
    hide IsWhitespace;
    if behind == "" {
      left := "";
      assert core + behind == core;
    } else {
      var n := |behind| - 1;
      WhitespaceIs(behind[n]);
      assert (core + behind)[..|core| + n] == core + behind[..n] && Blank(behind) == (behind[n] in WHITE_SPACE && Blank(behind[..n]));
      if IsWhitespace(behind[n]) { left := TrimBack(core, behind[..n]); } else { left := behind; }
    }
  }

  /** What may stand around a spelling: white space, and nothing else. */
  lemma {:induction false} OnlyWhiteSpaceAround(before: string, s: Schedule, behind: string)
    requires Spellable(s)
    ensures Parse(before + (Render(s) + behind)) == Some(s) <==> Blank(before) && Blank(behind)
  {
    var text := Render(s);
    EndsInText(s);
    ExactlyOneSpelling(before + (text + behind), s);
    hide Parse, Render, IsWhitespace, TrimStart, TrimEnd, Blank;
    assert (text + behind)[0] == text[0];
    var front := TrimFront(before, text + behind);
    if front == "" {
      var back := TrimBack(text, behind);
      assert front + (text + behind) == text + behind;
    } else {
      var back := TrimBack(front + text, behind);
      assert front + (text + behind) == front + text + behind;
    }
  }

  lemma {:induction false} EndsInText(s: Schedule)
    ensures var text := Render(s); text != "" && !IsWhitespace(text[0]) && !IsWhitespace(text[|text| - 1])
  {
    var text := Render(s);
    assert text[0] == 'w' || text[0] == 'm';
    assert RenderTime(s.at)[4] == TwoDigits(s.at / MINUTE % 60)[1];
    assert text[|text| - 1] == RenderTime(s.at)[4];
  }

  /** Round trip: the printed form reads back as the same schedule exactly when the schedule can be
      spelled; a day past 31 or a time with seconds does not survive. */
  lemma {:induction false} PrintedFormReadsBack(s: Schedule)
    ensures Parse(Render(s)) == Some(s) <==> Spellable(s)
  {
    PrintedFormIsTrimmed(s);
    ExactlyOneSpelling(Render(s), s);
  }

  /** Two schedules never share a printed form. */
  lemma {:induction false} PrintedFormsDiffer(s: Schedule, t: Schedule)
    requires Spellable(s) && Spellable(t) && Render(s) == Render(t)
    ensures s == t
  {
    PrintedFormReadsBack(s);
    PrintedFormReadsBack(t);
  }
}
