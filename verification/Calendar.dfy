/** The dates src/schedule.rs computes with: the proleptic Gregorian calendar over the bounded range of
    years the date type represents, as (year, month, day) and as day numbers, and the proof that the two
    views order days alike. */
module Calendar {
  import opened Basics

  const MIN_YEAR: int := -262_143
  const MAX_YEAR: int := 262_142

  predicate IsLeap(year: int) { year % 4 == 0 && (year % 100 != 0 || year % 400 == 0) }

  /** The Gregorian month lengths. */
  function MonthLength(year: int, month: int): (days: int)
    ensures 28 <= days <= 31
  {
    if month == 2 then (if IsLeap(year) then 29 else 28)
    else if month == 4 || month == 6 || month == 9 || month == 11 then 30
    else 31
  }

  function YearLength(year: int): (days: int)
    ensures days == 366 <==> year % 4 == 0 && (year % 100 == 0 ==> year % 400 == 0)
    ensures days == 365 || days == 366
  {
    if IsLeap(year) then 366 else 365
  }

  datatype Date = Date(year: int, month: int, day: int) {
    predicate Exists() { 1 <= month <= 12 && 1 <= day <= MonthLength(year, month) }

    /** The date type holds this day. */
    predicate Valid() { MIN_YEAR <= year <= MAX_YEAR && Exists() }

    /** Calendar order. */
    predicate Before(other: Date) {
      year < other.year || (year == other.year && (month < other.month || (month == other.month && day < other.day)))
    }
  }

  const MAX_DATE := Date(MAX_YEAR, 12, 31)

  function FromYmd(year: int, month: int, day: int): Option<Date> {
    var date := Date(year, month, day);
    if date.Valid() then Some(date) else None
  }

  /** The day after, ignoring the range. */
  function Following(d: Date): Date {
    if d.day < MonthLength(d.year, d.month) then Date(d.year, d.month, d.day + 1)
    else if d.month < 12 then Date(d.year, d.month + 1, 1)
    else Date(d.year + 1, 1, 1)
  }

  function Succ(d: Date): Option<Date> {
    if Following(d).Valid() then Some(Following(d)) else None
  }

  function Pred(d: Date): Option<Date> {
    if 1 < d.day then FromYmd(d.year, d.month, d.day - 1)
    else if 1 < d.month then FromYmd(d.year, d.month - 1, MonthLength(d.year, d.month - 1))
    else FromYmd(d.year - 1, 12, 31)
  }

  function AddDays(d: Date, n: nat): (r: Option<Date>)
    requires d.Valid()
    ensures r.Some? ==> r.value.Valid()
    decreases n
  {
    if n == 0 then Some(d)
    else match Succ(d)
      case None => None
      case Some(next) => AddDays(next, n - 1)
  }

  // ----- day numbers

  /** Days of earlier years; day 1 is 0001-01-01. */
  function DaysBeforeYear(year: int): int {
    365 * (year - 1) + (year - 1) / 4 - (year - 1) / 100 + (year - 1) / 400
  }

  function DaysBeforeMonth(year: int, month: int): int
    decreases month
  {
    if month <= 1 then 0 else DaysBeforeMonth(year, month - 1) + MonthLength(year, month - 1)
  }

  function DayNumber(d: Date): int {
    DaysBeforeYear(d.year) + DaysBeforeMonth(d.year, d.month) + d.day
  }

  /** 0 for Monday. 0001-01-01 was one. */
  function WeekdayIndex(d: Date): (w: int)
    ensures 0 <= w < 7
  {
    (DayNumber(d) - 1) % 7
  }

  lemma {:induction false} NextYearStarts(year: int)
    ensures DaysBeforeYear(year + 1) == DaysBeforeYear(year) + YearLength(year)
  {
    DivStep(year, 4);
    DivStep(year, 100);
    DivStep(year, 400);
    LeapCenturies(year);
  }

  /** One more year completes one more group of 4, 100 or 400 exactly when it is a multiple. */
  lemma {:induction false} DivStep(x: int, n: int)
    requires n == 4 || n == 100 || n == 400
    ensures x / n == (x - 1) / n + if x % n == 0 then 1 else 0
  {}

  lemma {:induction false} LeapCenturies(year: int)
    ensures year % 400 == 0 ==> year % 100 == 0
    ensures year % 100 == 0 ==> year % 4 == 0
  {}

  lemma {:induction false} MonthsFillTheYear(year: int)
    ensures DaysBeforeMonth(year, 12) + 31 == YearLength(year)
  {
    MonthTable(year);
  }

  lemma {:induction false} MonthTable(year: int)
    ensures var leap := if IsLeap(year) then 1 else 0;
            && DaysBeforeMonth(year, 2) == 31 && DaysBeforeMonth(year, 3) == 59 + leap
            && DaysBeforeMonth(year, 4) == 90 + leap && DaysBeforeMonth(year, 5) == 120 + leap
            && DaysBeforeMonth(year, 6) == 151 + leap && DaysBeforeMonth(year, 7) == 181 + leap
            && DaysBeforeMonth(year, 8) == 212 + leap && DaysBeforeMonth(year, 9) == 243 + leap
            && DaysBeforeMonth(year, 10) == 273 + leap && DaysBeforeMonth(year, 11) == 304 + leap
            && DaysBeforeMonth(year, 12) == 334 + leap
  {
    assert DaysBeforeMonth(year, 2) == 31;
    assert DaysBeforeMonth(year, 3) == 31 + MonthLength(year, 2);
    assert DaysBeforeMonth(year, 4) == DaysBeforeMonth(year, 3) + 31;
    assert DaysBeforeMonth(year, 5) == DaysBeforeMonth(year, 4) + 30;
    assert DaysBeforeMonth(year, 6) == DaysBeforeMonth(year, 5) + 31;
    assert DaysBeforeMonth(year, 7) == DaysBeforeMonth(year, 6) + 30;
    assert DaysBeforeMonth(year, 8) == DaysBeforeMonth(year, 7) + 31;
    assert DaysBeforeMonth(year, 9) == DaysBeforeMonth(year, 8) + 31;
    assert DaysBeforeMonth(year, 10) == DaysBeforeMonth(year, 9) + 30;
    assert DaysBeforeMonth(year, 11) == DaysBeforeMonth(year, 10) + 31;
    assert DaysBeforeMonth(year, 12) == DaysBeforeMonth(year, 11) + 30;
  }

  lemma {:induction false} MonthsInOrder(year: int, month: int, later: int)
    requires 1 <= month < later <= 12
    ensures DaysBeforeMonth(year, month) + MonthLength(year, month) <= DaysBeforeMonth(year, later)
    decreases later
  {
    if month + 1 < later { MonthsInOrder(year, month, later - 1); }
  }

  lemma {:induction false} YearsInOrder(year: int, later: int)
    requires year < later
    ensures DaysBeforeYear(year) + YearLength(year) <= DaysBeforeYear(later)
    decreases later - year
  {
    NextYearStarts(later - 1);
    if year + 1 < later { YearsInOrder(year, later - 1); }
  }

  /** A day of a year falls between that year's first day number and its last. */
  lemma {:induction false} WithinItsYear(d: Date)
    requires d.Exists()
    ensures DaysBeforeYear(d.year) < DayNumber(d) <= DaysBeforeYear(d.year) + YearLength(d.year)
  {
    MonthsFillTheYear(d.year);
    if d.month < 12 { MonthsInOrder(d.year, d.month, 12); }
    MonthTable(d.year);
  }

  /** Both views agree on order, and so on equality: no two days share a number. */
  lemma {:induction false} OrdersAgree(a: Date, b: Date)
    requires a.Exists() && b.Exists()
    ensures a.Before(b) <==> DayNumber(a) < DayNumber(b)
    ensures a == b <==> DayNumber(a) == DayNumber(b)
  {
    NumbersFollow(a, b);
    NumbersFollow(b, a);
  }

  lemma {:induction false} NumbersFollow(a: Date, b: Date)
    requires a.Exists() && b.Exists()
    ensures a.Before(b) ==> DayNumber(a) < DayNumber(b)
  {
    WithinItsYear(a);
    WithinItsYear(b);
    if a.year < b.year {
      YearsInOrder(a.year, b.year);
    } else if a.year == b.year && a.month < b.month {
      MonthsInOrder(a.year, a.month, b.month);
    }
  }

  /** The calendar's next day is the next day number: month ends and leap years included. */
  lemma {:induction false} FollowingIsTheNextNumber(d: Date)
    requires d.Exists()
    ensures Following(d).Exists() && DayNumber(Following(d)) == DayNumber(d) + 1
  {
    if d.day == MonthLength(d.year, d.month) {
      if d.month == 12 {
        NextYearStarts(d.year);
        MonthsFillTheYear(d.year);
      }
    }
  }

  lemma {:induction false} LastDay(d: Date)
    requires d.Valid()
    ensures DayNumber(d) <= DayNumber(MAX_DATE)
  {
    OrdersAgree(d, MAX_DATE);
    OrdersAgree(MAX_DATE, d);
  }

  /** Adding days adds to the day number, and fails only past the end of the range. */
  lemma {:induction false} AddDaysAddsToTheNumber(d: Date, n: nat)
    requires d.Valid()
    ensures AddDays(d, n).None? <==> DayNumber(d) + n > DayNumber(MAX_DATE)
    ensures AddDays(d, n).Some? ==> AddDays(d, n).value.Valid() && DayNumber(AddDays(d, n).value) == DayNumber(d) + n
    decreases n
  {
    hide DayNumber, IsLeap;
    LastDay(d);
    if n > 0 {
      FollowingIsTheNextNumber(d);
      if Succ(d).Some? {
        AddDaysAddsToTheNumber(Following(d), n - 1);
      } else {
        assert d == MAX_DATE;
      }
    }
  }
}
