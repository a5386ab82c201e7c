/** src/schedule.rs: when the user's full sweep fires next. */
module SweepSchedule {
  import opened Basics
  import opened Calendar

  datatype Weekday = Mon | Tue | Wed | Thu | Fri | Sat | Sun

  function FromMonday(day: Weekday): (index: nat)
    ensures index < 7
  {
    match day
    case Mon => 0 case Tue => 1 case Wed => 2 case Thu => 3 case Fri => 4 case Sat => 5 case Sun => 6
  }

  /** A time of day, in nanoseconds since midnight. */
  type Time = t: nat | t < 86_400 * NANOS

  datatype DateTime = DateTime(date: Date, time: Time) {
    predicate Before(other: DateTime) {
      date.Before(other.date) || (date == other.date && time < other.time)
    }
  }

  const MAX_MOMENT := DateTime(MAX_DATE, 86_400 * NANOS - 1)

  datatype Schedule = Weekly(day: Weekday, at: Time) | Monthly(dayOfMonth: nat, at: Time) {
    /** The parser accepts days 1 to 31 only. */
    predicate Valid() { Monthly? ==> 1 <= dayOfMonth <= 31 }
  }

  function Min(a: int, b: int): int { if a < b then a else b }

  function LastDayOfMonth(year: int, month: int): int {
    var (nextYear, nextMonth) := if month == 12 then (year + 1, 1) else (year, month + 1);
    match FromYmd(nextYear, nextMonth, 1)
    case None => 28
    case Some(first) => match Pred(first) case None => 28 case Some(last) => last.day
  }

  /** The same year and month, on the wanted day or, where there is none, on the computed last one. */
  function ClampedDay(date: Date, day: nat): (clamped: Date)
    requires date.Valid() && 1 <= day
    ensures clamped.Valid() && clamped.year == date.year && clamped.month == date.month
  {
    FromYmd(date.year, date.month, Min(day, LastDayOfMonth(date.year, date.month))).value
  }

  function FirstOfNextMonth(date: Date): (first: Date)
    requires date.Valid()
    ensures first.Valid()
  {
    var (year, month) := if date.month == 12 then (date.year + 1, 1) else (date.year, date.month + 1);
    match FromYmd(year, month, 1) case None => MAX_DATE case Some(first) => first
  }

  function DaysAhead(day: Weekday, from: Date): nat { (7 + FromMonday(day) - WeekdayIndex(from)) % 7 }

  function NextDue(s: Schedule, after: DateTime): (due: DateTime)
    requires s.Valid() && after.date.Valid()
    ensures due.date.Valid()
  {
    hide DayNumber, IsLeap, LastDayOfMonth;
    match s
    case Weekly(day, at) =>
      var ahead := DaysAhead(day, after.date);
      var candidate := AddDays(after.date, ahead);
      if candidate.Some? && after.Before(DateTime(candidate.value, at)) then DateTime(candidate.value, at)
      else (match AddDays(after.date, ahead + 7)
            case Some(date) => DateTime(date, at)
            case None => MAX_MOMENT)
    case Monthly(day, at) =>
      var thisMonth := DateTime(ClampedDay(after.date, day), at);
      if after.Before(thisMonth) then thisMonth
      else DateTime(ClampedDay(FirstOfNextMonth(after.date), day), at)
  }

  // ----- what the schedule promises

  /** A moment the schedule names: its weekday, or its day of the month or the month's last day. */
  predicate Scheduled(s: Schedule, t: DateTime) {
    && t.date.Valid() && t.time == s.at
    && match s
       case Weekly(day, _) => WeekdayIndex(t.date) == FromMonday(day)
       case Monthly(day, _) => t.date.day == Min(day, MonthLength(t.date.year, t.date.month))
  }

  /** `due` is scheduled, strictly after `after`, and no scheduled moment lies strictly between. */
  ghost predicate IsEarliest(s: Schedule, after: DateTime, due: DateTime) {
    && Scheduled(s, due) && after.Before(due)
    && forall t: DateTime :: Scheduled(s, t) && after.Before(t) ==> !t.Before(due)
  }

  /** The month's own moment for a monthly schedule. */
  function MonthFiring(s: Schedule, year: int, month: int): DateTime
    requires s.Monthly?
  {
    DateTime(Date(year, month, Min(s.dayOfMonth, MonthLength(year, month))), s.at)
  }

  /** Whether the calendar's range still has room for the next firing. */
  predicate HasRoom(s: Schedule, after: DateTime) {
    match s
    case Weekly(day, at) =>
      DayNumber(after.date) + DaysUntil(s, after) <= DayNumber(MAX_DATE)
    case Monthly(day, at) => after.Before(MonthFiring(s, MAX_YEAR, if day <= 28 then 12 else 11))
  }

  /** Which date is which weekday: a week anybody can look up. Day numbers carry it to every other date. */
  lemma {:induction false} KnownWeek(at: Time)
    ensures Scheduled(Weekly(Mon, at), DateTime(Date(2024, 1, 1), at)) && Scheduled(Weekly(Tue, at), DateTime(Date(2024, 1, 2), at))
    ensures Scheduled(Weekly(Wed, at), DateTime(Date(2024, 1, 3), at)) && Scheduled(Weekly(Thu, at), DateTime(Date(2024, 1, 4), at))
    ensures Scheduled(Weekly(Fri, at), DateTime(Date(2024, 1, 5), at)) && Scheduled(Weekly(Sat, at), DateTime(Date(2024, 1, 6), at))
    ensures Scheduled(Weekly(Sun, at), DateTime(Date(2024, 1, 7), at))
  {
    assert forall d {:trigger WeekdayIndex(Date(2024, 1, d))} :: 1 <= d <= 7 ==> WeekdayIndex(Date(2024, 1, d)) == d - 1 by {
      assert DaysBeforeYear(2024) == 7 * 105_555 && DaysBeforeMonth(2024, 1) == 0;
    }
    hide WeekdayIndex;
  }

  /** And the days around the Februaries the Gregorian leap rule is about. */
  lemma {:induction false} KnownLeapDays(at: Time)
    ensures Scheduled(Weekly(Thu, at), DateTime(Date(2024, 2, 29), at)) && Scheduled(Weekly(Fri, at), DateTime(Date(2024, 3, 1), at))
    ensures Scheduled(Weekly(Tue, at), DateTime(Date(2000, 2, 29), at)) && Scheduled(Weekly(Wed, at), DateTime(Date(2000, 3, 1), at))
    ensures Scheduled(Weekly(Wed, at), DateTime(Date(1900, 2, 28), at)) && Scheduled(Weekly(Thu, at), DateTime(Date(1900, 3, 1), at))
  {
    MonthTable(2024);
    MonthTable(2000);
    MonthTable(1900);
  }

  /** A day lasts 86 400 seconds: moments stand in the order of the nanoseconds counted to them. */
  lemma {:induction false} MomentsInOrder(t: DateTime, u: DateTime)
    requires t.date.Exists() && u.date.Exists()
    ensures t.Before(u) <==>
            DayNumber(t.date) * 86_400_000_000_000 + t.time < DayNumber(u.date) * 86_400_000_000_000 + u.time
  {
    OrdersAgree(t.date, u.date);
    OrdersAgree(u.date, t.date);
    hide DayNumber;
    InNanoseconds(DayNumber(t.date), DayNumber(u.date), t.time, u.time);
  }

  lemma {:induction false} InNanoseconds(m: int, n: int, s: Time, t: Time)
    ensures m * 86_400_000_000_000 + s < n * 86_400_000_000_000 + t <==> m < n || (m == n && s < t)
  {}

  /** The month length is computed as the day before the next month's first, which is right everywhere
      but in the last month the date type has. */
  lemma {:induction false} LastDayIsTheMonthLength(year: int, month: int)
    requires -262_143 <= year <= 262_142 && 1 <= month <= 12
    ensures LastDayOfMonth(year, month) == MonthLength(year, month) <==> !(year == 262_142 && month == 12)
    ensures year == 262_142 && month == 12 ==> LastDayOfMonth(year, month) == 28
  {}

  /** The days on the schedule's weekday are the first one ahead and every seventh after it. */
  lemma {:induction false} WeekdayOffset(day: Weekday, from: Date, to: Date)
    ensures WeekdayIndex(to) == FromMonday(day) <==>
            (DayNumber(to) - DayNumber(from) - DaysAhead(day, from)) % 7 == 0
  {
    SevenDayCycle(DayNumber(from) - 1, DayNumber(to) - DayNumber(from), FromMonday(day));
  }

  lemma {:induction false} SevenDayCycle(m: int, n: int, i: nat)
    requires i < 7
    ensures (m + n) % 7 == i <==> (n - (7 + i - m % 7) % 7) % 7 == 0
  {
    var w := m % 7;
    var ahead := (7 + i - w) % 7;
    assert ahead == if w <= i then i - w else i - w + 7;
    SevensDrop(w + n, m / 7);
    SevensDrop(n - ahead, 1);
    RemainderIs(w + n, i);
  }

  lemma {:induction false} SevensDrop(x: int, weeks: int)
    ensures (x + 7 * weeks) % 7 == x % 7
  {
    assert x + 7 * weeks == 7 * (x / 7 + weeks) + x % 7;
  }

  lemma {:induction false} RemainderIs(x: int, i: nat)
    requires i < 7
    ensures x % 7 == i <==> (x - i) % 7 == 0
  {
    assert x == 7 * (x / 7) + x % 7;
  }

  lemma {:induction false} NotSooner(n: int, ahead: nat)
    requires n >= 0 && ahead < 7 && (n - ahead) % 7 == 0
    ensures n >= ahead
    ensures ahead == 0 && n > 0 ==> n >= 7
  {}

  /** Days until the weekly firing: today counts only before its time has gone by. */
  function DaysUntil(s: Schedule, after: DateTime): nat
    requires s.Weekly?
  {
    var ahead := DaysAhead(s.day, after.date);
    if ahead == 0 && s.at <= after.time then ahead + 7 else ahead
  }

  lemma {:induction false} WeeklyAnswer(s: Schedule, after: DateTime)
    requires s.Weekly? && after.date.Valid() && HasRoom(s, after)
    ensures var due := NextDue(s, after);
            && due.date.Valid() && due.time == s.at && after.Before(due)
            && DayNumber(due.date) == DayNumber(after.date) + DaysUntil(s, after)
  {
    hide DayNumber, WeekdayIndex, AddDays;
    var (from, ahead) := (after.date, DaysAhead(s.day, after.date));
    AddDaysAddsToTheNumber(from, ahead);
    OrdersAgree(from, AddDays(from, ahead).value);
    if DaysUntil(s, after) != ahead {
      AddDaysAddsToTheNumber(from, ahead + 7);
      OrdersAgree(from, AddDays(from, ahead + 7).value);
    }
  }

  lemma {:induction false} WeeklyNoneBetween(s: Schedule, after: DateTime, due: DateTime, t: DateTime)
    requires s.Weekly? && after.date.Valid() && due.date.Valid() && due.time == s.at
    requires DayNumber(due.date) == DayNumber(after.date) + DaysUntil(s, after)
    requires Scheduled(s, t) && after.Before(t)
    ensures !t.Before(due)
  {
    hide DayNumber, WeekdayIndex;
    OrdersAgree(after.date, t.date);
    OrdersAgree(t.date, due.date);
    WeekdayOffset(s.day, after.date, t.date);
    NotSooner(DayNumber(t.date) - DayNumber(after.date), DaysAhead(s.day, after.date));
  }

  lemma {:induction false} WeeklyIsEarliest(s: Schedule, after: DateTime)
    requires s.Weekly? && after.date.Valid() && HasRoom(s, after)
    ensures IsEarliest(s, after, NextDue(s, after))
    ensures DayNumber(NextDue(s, after).date) - DayNumber(after.date) == DaysUntil(s, after) <= 7
  {
    hide NextDue, DayNumber, WeekdayIndex;
    var due := NextDue(s, after);
    WeeklyAnswer(s, after);
    WeekdayOffset(s.day, after.date, due.date);
    forall t: DateTime | Scheduled(s, t) && after.Before(t) ensures !t.Before(due) {
      WeeklyNoneBetween(s, after, due, t);
    }
  }

  /** Past the room there is no scheduled moment left to find. */
  lemma {:induction false} WeeklyOutOfRoom(s: Schedule, after: DateTime, t: DateTime)
    requires s.Weekly? && after.date.Valid() && !HasRoom(s, after)
    ensures !(Scheduled(s, t) && after.Before(t))
  {
    hide DayNumber, WeekdayIndex;
    if Scheduled(s, t) && after.Before(t) {
      LastDay(t.date);
      OrdersAgree(after.date, t.date);
      WeekdayOffset(s.day, after.date, t.date);
      NotSooner(DayNumber(t.date) - DayNumber(after.date), DaysAhead(s.day, after.date));
    }
  }

  /** One moment a month, and later months fire later. */
  lemma {:induction false} MonthsFireInOrder(s: Schedule, t: DateTime, year: int, month: int)
    requires s.Monthly? && s.Valid() && Scheduled(s, t) && 1 <= month <= 12
    ensures t.date.year == year && t.date.month == month ==> t == MonthFiring(s, year, month)
    ensures year < t.date.year || (year == t.date.year && month < t.date.month) ==> MonthFiring(s, year, month).Before(t)
    ensures t.date.year < year || (year == t.date.year && t.date.month < month) ==> t.Before(MonthFiring(s, year, month))
  {}

  /** This month's moment while it is still ahead, and otherwise the next month's. */
  function MonthlyAnswer(s: Schedule, after: DateTime): DateTime
    requires s.Monthly?
  {
    var now := MonthFiring(s, after.date.year, after.date.month);
    if after.Before(now) then now else FiringAfter(s, after.date.year, after.date.month)
  }

  function FiringAfter(s: Schedule, year: int, month: int): DateTime
    requires s.Monthly?
  {
    if month == 12 then MonthFiring(s, year + 1, 1) else MonthFiring(s, year, month + 1)
  }

  lemma {:induction false} ClampedIsTheMonthFiring(s: Schedule, date: Date)
    requires s.Monthly? && s.Valid() && date.Valid()
    requires !(date.year == MAX_YEAR && date.month == 12) || s.dayOfMonth <= 28
    ensures DateTime(ClampedDay(date, s.dayOfMonth), s.at) == MonthFiring(s, date.year, date.month)
  {
    LastDayIsTheMonthLength(date.year, date.month);
  }

  lemma {:induction false} MonthlyAnswers(s: Schedule, after: DateTime)
    requires s.Monthly? && s.Valid() && after.date.Valid() && HasRoom(s, after)
    ensures NextDue(s, after) == MonthlyAnswer(s, after)
    ensures Scheduled(s, NextDue(s, after)) && after.Before(NextDue(s, after))
  {
    ClampedIsTheMonthFiring(s, after.date);
    if !after.Before(MonthFiring(s, after.date.year, after.date.month)) {
      ClampedIsTheMonthFiring(s, FirstOfNextMonth(after.date));
    }
  }

  lemma {:induction false} MonthlyIsEarliest(s: Schedule, after: DateTime)
    requires s.Monthly? && s.Valid() && after.date.Valid() && HasRoom(s, after)
    ensures IsEarliest(s, after, NextDue(s, after))
  {
    var due := NextDue(s, after);
    MonthlyAnswers(s, after);
    forall t: DateTime | Scheduled(s, t) && after.Before(t) ensures !t.Before(due) {
      MonthsFireInOrder(s, t, after.date.year, after.date.month);
      MonthsFireInOrder(s, t, due.date.year, due.date.month);
    }
  }

  lemma {:induction false} MonthlyOutOfRoom(s: Schedule, after: DateTime)
    requires s.Monthly? && s.Valid() && after.date.Valid() && !HasRoom(s, after)
    ensures !IsEarliest(s, after, NextDue(s, after))
  {
    LastDayIsTheMonthLength(after.date.year, after.date.month);
    LastDayIsTheMonthLength(MAX_YEAR, 12);
    LastDayIsTheMonthLength(MAX_YEAR, 11);
  }

  /** The daemon's whole use of the schedule: the answer is the earliest scheduled moment strictly after
      the one asked about, exactly as long as the date type's range has room for it. At the very end of
      the range it saturates instead, and then the answer is not one. */
  lemma {:induction false} NextDueIsTheEarliestFiring(s: Schedule, after: DateTime)
    requires s.Valid() && after.date.Valid()
    ensures IsEarliest(s, after, NextDue(s, after)) <==> HasRoom(s, after)
  {
    if HasRoom(s, after) {
      if s.Weekly? { WeeklyIsEarliest(s, after); } else { MonthlyIsEarliest(s, after); }
    } else {
      if s.Weekly? { WeeklyOutOfRoom(s, after, NextDue(s, after)); } else { MonthlyOutOfRoom(s, after); }
    }
  }

  /** At the end of the range the answer is not even later: all through its last month a monthly schedule
      answers with one and the same moment of that month, gone by or not. */
  lemma {:induction false} LastMonthAnswersWithOneMoment(s: Schedule, after: DateTime)
    requires s.Monthly? && s.Valid() && after.date.Valid()
    requires after.date.year == MAX_YEAR && after.date.month == 12
    ensures NextDue(s, after) == DateTime(Date(MAX_YEAR, 12, Min(s.dayOfMonth, 28)), s.at)
  {
    LastDayIsTheMonthLength(MAX_YEAR, 12);
    assert FirstOfNextMonth(after.date) == MAX_DATE;
  }

  // ----- firing after firing

  /** The k-th firing after `from`. */
  function Iterate(s: Schedule, from: DateTime, k: nat): (t: DateTime)
    requires s.Valid() && from.date.Valid()
    ensures t.date.Valid()
  {
    if k == 0 then from
    else NextDue(s, Iterate(s, from, k - 1))
  }

  lemma {:induction false} WeeklyStep(s: Schedule, from: DateTime)
    requires s.Weekly? && Scheduled(s, from) && DayNumber(from.date) + 7 <= DayNumber(MAX_DATE)
    ensures Scheduled(s, NextDue(s, from))
    ensures DayNumber(NextDue(s, from).date) == DayNumber(from.date) + 7
  {
    WeekdayOffset(s.day, from.date, from.date);
    assert DaysAhead(s.day, from.date) == 0 && DaysUntil(s, from) == 7;
    WeeklyIsEarliest(s, from);
  }

  /** Weekly firings are exactly seven days apart. */
  lemma {:induction false} WeeklyFiresEverySevenDays(s: Schedule, from: DateTime, k: nat)
    requires s.Weekly? && Scheduled(s, from)
    requires DayNumber(from.date) + 7 * k <= DayNumber(MAX_DATE)
    ensures Scheduled(s, Iterate(s, from, k))
    ensures DayNumber(Iterate(s, from, k).date) == DayNumber(from.date) + 7 * k
    decreases k
  {
    if k > 0 {
      WeeklyFiresEverySevenDays(s, from, k - 1);
      WeeklyStep(s, Iterate(s, from, k - 1));
    }
  }

  /** Months counted through, so that December is followed by the next January. */
  function MonthAt(index: int): (int, int) { (index / 12, index % 12 + 1) }

  function FiringAt(s: Schedule, index: int): DateTime
    requires s.Monthly?
  {
    MonthFiring(s, MonthAt(index).0, MonthAt(index).1)
  }

  lemma {:induction false} FiringAtIsScheduled(s: Schedule, index: int)
    requires s.Monthly? && s.Valid() && 12 * MIN_YEAR <= index < 12 * MAX_YEAR + 12
    ensures Scheduled(s, FiringAt(s, index)) && FiringAt(s, index).date.Valid()
  {}

  lemma {:induction false} MonthlyStep(s: Schedule, index: int, next: int)
    requires s.Monthly? && s.Valid() && 12 * MIN_YEAR <= index < 12 * MAX_YEAR + 10 && next == index + 1
    ensures FiringAt(s, index).date.Valid() && NextDue(s, FiringAt(s, index)) == FiringAt(s, next)
  {
    var from := FiringAt(s, index);
    FiringAtIsScheduled(s, index);
    assert from.date.year < MAX_YEAR || (from.date.year == MAX_YEAR && from.date.month < 11);
    MonthsFireInOrder(s, from, MAX_YEAR, if s.dayOfMonth <= 28 then 12 else 11);
    MonthlyAnswers(s, from);
    NextMonth(index);
  }

  lemma {:induction false} IterateNone(s: Schedule, from: DateTime)
    requires s.Valid() && from.date.Valid()
    ensures Iterate(s, from, 0) == from
  {}

  lemma {:induction false} IterateOnce(s: Schedule, from: DateTime, k: nat, before: DateTime)
    requires s.Valid() && from.date.Valid() && Iterate(s, from, k) == before
    ensures before.date.Valid() && Iterate(s, from, k + 1) == NextDue(s, before)
  {}

  lemma {:induction false} OneMoreMonth(s: Schedule, from: DateTime, k: nat, index: int, next: int)
    requires s.Monthly? && s.Valid() && from.date.Valid()
    requires 12 * MIN_YEAR <= index < 12 * MAX_YEAR + 10 && next == index + 1
    requires Iterate(s, from, k) == FiringAt(s, index)
    ensures Iterate(s, from, k + 1) == FiringAt(s, next)
  {
    IterateOnce(s, from, k, FiringAt(s, index));
    MonthlyStep(s, index, next);
  }

  /** Every month fires, exactly once and in turn: counting firings from a month's own counts months,
      whatever the day of the month. */
  lemma {:induction false} MonthlyFiresEveryMonth(s: Schedule, first: int, last: int)
    requires s.Monthly? && s.Valid()
    requires 12 * MIN_YEAR <= first <= last < 12 * MAX_YEAR + 11
    ensures FiringAt(s, first).date.Valid() && Iterate(s, FiringAt(s, first), last - first) == FiringAt(s, last)
    decreases last - first
  {
    hide FiringAt, NextDue, Iterate, Scheduled, Date.Valid;
    FiringAtIsScheduled(s, first);
    var from := FiringAt(s, first);
    IterateNone(s, from);
    if first < last {
      var prior := last - 1;
      MonthlyFiresEveryMonth(s, first, prior);
      OneMoreMonth(s, from, prior - first, prior, last);
      assert prior - first + 1 == last - first;
    }
  }

  lemma {:induction false} NextMonth(index: int)
    ensures var (year, month) := MonthAt(index);
            1 <= month <= 12 && MonthAt(index + 1) == if month == 12 then (year + 1, 1) else (year, month + 1)
  {}

  /** Successive monthly firings are 28 to 31 days apart. */
  lemma {:induction false} MonthGap(s: Schedule, index: int)
    requires s.Monthly? && s.Valid()
    ensures 28 <= DayNumber(FiringAt(s, index + 1).date) - DayNumber(FiringAt(s, index).date) <= 31
  {
    var (year, month) := MonthAt(index);
    NextMonth(index);
    if month == 12 {
      NextYearStarts(year);
      MonthTable(year);
    }
  }

  lemma {:induction false} MonthOfYear(year: int, k: nat)
    requires k < 12
    ensures MonthAt(12 * year + k) == (year, k + 1)
  {}

  /** The k-th firing after a year's January one is that year's firing in month k + 1. */
  lemma {:induction false} FiringOfTheYear(s: Schedule, year: int, k: nat)
    requires s.Monthly? && s.Valid() && MIN_YEAR <= year < MAX_YEAR && k < 12
    ensures FiringAt(s, 12 * year).date.Valid()
    ensures Iterate(s, FiringAt(s, 12 * year), k) == MonthFiring(s, year, k + 1)
  {
    hide Iterate, NextDue;
    MonthlyFiresEveryMonth(s, 12 * year, 12 * year + k);
    MonthOfYear(year, k);
  }

  /** Twelve sweeps a year: the moments a monthly schedule names in a year are its January firing and
      the eleven after it, one for each month. */
  lemma {:induction false} TwelveSweepsAYear(s: Schedule, year: int, t: DateTime)
    requires s.Monthly? && s.Valid() && MIN_YEAR <= year < MAX_YEAR && t.date.Valid()
    ensures FiringAt(s, 12 * year).date.Valid()
    ensures Scheduled(s, t) && t.date.year == year <==>
            exists k: nat :: k < 12 && t == Iterate(s, FiringAt(s, 12 * year), k)
    ensures forall k: nat :: k < 12 ==> Iterate(s, FiringAt(s, 12 * year), k).date.month == k + 1
  {
    FiringOfTheYear(s, year, 0);
    var january := FiringAt(s, 12 * year);
    forall k: nat | k < 12
      ensures Iterate(s, january, k) == MonthFiring(s, year, k + 1) && Scheduled(s, MonthFiring(s, year, k + 1))
    {
      FiringOfTheYear(s, year, k);
    }
    if Scheduled(s, t) && t.date.year == year {
      MonthsFireInOrder(s, t, year, t.date.month);
      var k: nat := t.date.month - 1;
      assert t == Iterate(s, january, k);
    }
  }

  // ----- from a local time to an instant

  datatype LocalResult = Nowhere | Single(instant: int) | Ambiguous(one: int, other: int)

  const MAX_GAP_STEP_MINUTES: nat := 180
  const MINUTE: nat := 60 * NANOS

  /** Steps a minute at a time across a gap no clock shows. Takes the first minute that exists, and the
      earlier instant of a minute that happens twice; gives up after three hours. */
  method ResolveLocal(due: int, resolve: int -> LocalResult) returns (instant: Option<int>)
    ensures instant.None? <==> forall m :: 0 <= m <= 180 ==> resolve(due + m * MINUTE).Nowhere?
    ensures instant.Some? ==> exists m ::
              && 0 <= m <= 180
              && (forall earlier :: 0 <= earlier < m ==> resolve(due + earlier * MINUTE).Nowhere?)
              && match resolve(due + m * MINUTE)
                 case Nowhere => false
                 case Single(only) => instant.value == only
                 case Ambiguous(one, other) => instant.value <= one && instant.value <= other && instant.value in {one, other}
  {
    for minute := 0 to MAX_GAP_STEP_MINUTES + 1
      invariant forall m :: 0 <= m < minute ==> resolve(due + m * MINUTE).Nowhere?
    {
      match resolve(due + minute * MINUTE) {
        case Single(only) => return Some(only);
        case Ambiguous(one, other) => return Some(Min(one, other));
        case Nowhere =>
      }
    }
    return None;
  }
}
