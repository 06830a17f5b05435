/** The proleptic Gregorian calendar and ISO weeks, over all integer years. */
module Calendar {

  datatype Date = Date(year: int, month: int, day: int)

  predicate IsLeap(y: int) {
    y % 4 == 0 && (y % 100 != 0 || y % 400 == 0)
  }

  function YearLength(y: int): int {
    if IsLeap(y) then 366 else 365
  }

  function DaysInMonth(y: int, m: int): int {
    if m == 2 then (if IsLeap(y) then 29 else 28)
    else if m == 4 || m == 6 || m == 9 || m == 11 then 30 else 31
  }

  predicate IsDate(d: Date) {
    1 <= d.month <= 12 && 1 <= d.day <= DaysInMonth(d.year, d.month)
  }

  predicate Before(a: Date, b: Date) {
    a.year < b.year || (a.year == b.year && (a.month < b.month || (a.month == b.month && a.day < b.day)))
  }

  // -- Day numbers ------------------------------------------------------------

  /** Days from the start of year 1 to the start of year `y`. */
  function DaysBeforeYear(y: int): int {
    365 * (y - 1) + (y - 1) / 4 - (y - 1) / 100 + (y - 1) / 400
  }

  function DaysBeforeMonth(y: int, m: int): int
    requires 1 <= m <= 12
  {
    if m == 1 then 0 else DaysBeforeMonth(y, m - 1) + DaysInMonth(y, m - 1)
  }

  /** 1 January of year 1 is day 1. */
  function DayNumber(d: Date): int
    requires IsDate(d)
  {
    DaysBeforeYear(d.year) + DaysBeforeMonth(d.year, d.month) + d.day
  }

  lemma FloorStep(x: int, k: int)
    requires k == 4 || k == 100 || k == 400
    ensures x / k - (x - 1) / k == if x % k == 0 then 1 else 0
  {}

  lemma YearStep(y: int)
    ensures DaysBeforeYear(y + 1) == DaysBeforeYear(y) + YearLength(y)
  {
    FloorStep(y, 4);
    FloorStep(y, 100);
    FloorStep(y, 400);
  }

  lemma {:induction false} YearsGrow(y: int, z: int)
    requires y <= z
    ensures DaysBeforeYear(y) + 365 * (z - y) <= DaysBeforeYear(z)
    decreases z - y
  {
    if y < z {
      YearsGrow(y, z - 1);
      YearStep(z - 1);
    }
  }

  lemma MonthTable(y: int, m: int)
    requires 1 <= m <= 12
    ensures 0 <= DaysBeforeMonth(y, m) <= YearLength(y) - DaysInMonth(y, m)
    ensures m < 12 ==> DaysBeforeMonth(y, m + 1) == DaysBeforeMonth(y, m) + DaysInMonth(y, m)
    ensures m == 12 ==> DaysBeforeMonth(y, m) + DaysInMonth(y, m) == YearLength(y)
  {
    assert DaysBeforeMonth(y, 2) == 31;
    assert DaysBeforeMonth(y, 4) == DaysBeforeMonth(y, 2) + DaysInMonth(y, 2) + 31;
    assert DaysBeforeMonth(y, 6) == DaysBeforeMonth(y, 4) + 61;
    assert DaysBeforeMonth(y, 8) == DaysBeforeMonth(y, 6) + 61;
    assert DaysBeforeMonth(y, 10) == DaysBeforeMonth(y, 8) + 61;
    assert DaysBeforeMonth(y, 12) == DaysBeforeMonth(y, 10) + 61;
  }

  lemma InItsYear(d: Date)
    requires IsDate(d)
    ensures DaysBeforeYear(d.year) < DayNumber(d) <= DaysBeforeYear(d.year + 1)
  {
    MonthTable(d.year, d.month);
    YearStep(d.year);
  }

  lemma {:induction false} MonthsGrow(y: int, m: int, n: int)
    requires 1 <= m < n <= 12
    ensures DaysBeforeMonth(y, m) + DaysInMonth(y, m) <= DaysBeforeMonth(y, n)
    decreases n - m
  {
    if m + 1 < n {
      MonthsGrow(y, m, n - 1);
    }
  }

  /** Day numbers order dates. */
  lemma DayNumberOrders(a: Date, b: Date)
    requires IsDate(a) && IsDate(b)
    ensures Before(a, b) <==> DayNumber(a) < DayNumber(b)
    ensures a == b <==> DayNumber(a) == DayNumber(b)
  {
    if Before(a, b) { BeforeGrows(a, b); }
    if Before(b, a) { BeforeGrows(b, a); }
  }

  lemma BeforeGrows(a: Date, b: Date)
    requires IsDate(a) && IsDate(b) && Before(a, b)
    ensures DayNumber(a) < DayNumber(b)
  {
    InItsYear(a);
    InItsYear(b);
    if a.year < b.year {
      YearsGrow(a.year + 1, b.year);
    } else if a.month < b.month {
      MonthsGrow(a.year, a.month, b.month);
    }
  }

  // -- Neighbouring days ------------------------------------------------------

  function Previous(d: Date): (p: Date)
    requires IsDate(d)
    ensures IsDate(p)
  {
    if d.day > 1 then d.(day := d.day - 1)
    else if d.month > 1 then Date(d.year, d.month - 1, DaysInMonth(d.year, d.month - 1))
    else Date(d.year - 1, 12, 31)
  }

  lemma PreviousIsOneDayEarlier(d: Date)
    requires IsDate(d)
    ensures DayNumber(Previous(d)) == DayNumber(d) - 1
  {
    if d.day == 1 {
      if d.month > 1 { MonthTable(d.year, d.month - 1); } else { NewYearsEve(d.year); }
    }
  }

  lemma NewYearsEve(y: int)
    ensures DayNumber(Date(y - 1, 12, 31)) == DaysBeforeYear(y)
  {
    MonthTable(y - 1, 12);
    YearStep(y - 1);
  }

  /** The date `n` days earlier. */
  function DaysEarlier(d: Date, n: nat): (e: Date)
    requires IsDate(d)
    ensures IsDate(e)
  {
    if n == 0 then d else Previous(DaysEarlier(d, n - 1))
  }

  lemma {:induction false} DaysEarlierExact(d: Date, n: nat)
    requires IsDate(d)
    ensures DayNumber(DaysEarlier(d, n)) == DayNumber(d) - n
  {
    if n > 0 {
      DaysEarlierExact(d, n - 1);
      PreviousIsOneDayEarlier(DaysEarlier(d, n - 1));
    }
  }

  function Next(d: Date): (e: Date)
    requires IsDate(d)
    ensures IsDate(e) && Previous(e) == d
  {
    if d.day < DaysInMonth(d.year, d.month) then d.(day := d.day + 1)
    else if d.month < 12 then Date(d.year, d.month + 1, 1)
    else Date(d.year + 1, 1, 1)
  }

  /** The date `n` days later. */
  function DaysLater(d: Date, n: nat): (e: Date)
    requires IsDate(d)
    ensures IsDate(e)
  {
    if n == 0 then d else Next(DaysLater(d, n - 1))
  }

  /** The date `n` days later, or earlier for a negative `n`. */
  function DaysMoved(d: Date, n: int): (e: Date)
    requires IsDate(d)
    ensures IsDate(e)
  {
    if n < 0 then DaysEarlier(d, -n) else DaysLater(d, n)
  }

  lemma {:induction false} DaysMovedExact(d: Date, n: int)
    requires IsDate(d)
    ensures DayNumber(DaysMoved(d, n)) == DayNumber(d) + n
    decreases if n < 0 then -n else n
  {
    if n < 0 {
      DaysEarlierExact(d, -n);
    } else if n > 0 {
      DaysMovedExact(d, n - 1);
      PreviousIsOneDayEarlier(DaysLater(d, n));
    }
  }

  // -- Weekdays and ISO weeks -------------------------------------------------

  /** Monday is 1; day 1 was a Monday. */
  function Weekday(d: Date): (w: int)
    requires IsDate(d)
    ensures 1 <= w <= 7
  {
    (DayNumber(d) - 1) % 7 + 1
  }

  /** The Monday of the day's week, as a day number. */
  function Monday(d: Date): int
    requires IsDate(d)
  {
    DayNumber(d) - (Weekday(d) - 1)
  }

  /** The year that holds day number `n`, given that it is within one of `y`. */
  function YearNear(n: int, y: int): int {
    if n <= DaysBeforeYear(y) then y - 1 else if n > DaysBeforeYear(y + 1) then y + 1 else y
  }

  /** The ISO year of a day is the calendar year of its week's Thursday... */
  function IsoYear(d: Date): int
    requires IsDate(d)
  {
    YearNear(Monday(d) + 3, d.year)
  }

  /** ...and its ISO week counts the Thursdays of that year up to it. */
  function IsoWeek(d: Date): int
    requires IsDate(d)
  {
    (Monday(d) + 3 - DaysBeforeYear(IsoYear(d)) - 1) / 7 + 1
  }

  /** The Thursday lies in its ISO year. */
  lemma ThursdayIsInIsoYear(d: Date)
    requires IsDate(d)
    ensures DaysBeforeYear(IsoYear(d)) < Monday(d) + 3 <= DaysBeforeYear(IsoYear(d) + 1)
  {
    InItsYear(d);
    YearsGrow(d.year - 1, d.year);
    YearsGrow(d.year + 1, d.year + 2);
  }

  lemma MondaysAreMondays(d: Date)
    requires IsDate(d)
    ensures (Monday(d) - 1) % 7 == 0 && Monday(d) <= DayNumber(d) <= Monday(d) + 6
  {}

  /** The first Monday-based week of ISO year `y`: the one whose Thursday is the year's first. */
  function FirstMonday(y: int): int {
    var start := DaysBeforeYear(y);
    start - 2 + (3 - start) % 7
  }

  /** The year's first Thursday falls on one of its first seven days. */
  lemma FirstThursday(y: int)
    ensures (FirstMonday(y) - 1) % 7 == 0 && DaysBeforeYear(y) < FirstMonday(y) + 3 <= DaysBeforeYear(y) + 7
  {}

  /** The week number counts whole weeks from the ISO year's first Monday. */
  lemma IsoWeekFromMonday(d: Date)
    requires IsDate(d)
    ensures Monday(d) == FirstMonday(IsoYear(d)) + 7 * (IsoWeek(d) - 1) && IsoWeek(d) >= 1
  {
    ThursdayIsInIsoYear(d);
    FirstThursday(IsoYear(d));
    MondaysAreMondays(d);
    WholeWeeks(DaysBeforeYear(IsoYear(d)), FirstMonday(IsoYear(d)), Monday(d));
  }

  lemma WholeWeeks(start: int, first: int, monday: int)
    requires (first - 1) % 7 == 0 && (monday - 1) % 7 == 0
    requires start < first + 3 <= start + 7 && start < monday + 3
    ensures monday == first + 7 * ((monday + 3 - start - 1) / 7)
  {}

  lemma MondayDecidesTheYear(a: Date, b: Date)
    requires IsDate(a) && IsDate(b) && Monday(a) == Monday(b)
    ensures IsoYear(a) == IsoYear(b)
  {
    ThursdayIsInIsoYear(a);
    ThursdayIsInIsoYear(b);
    YearIsUnique(Monday(a) + 3, IsoYear(a), IsoYear(b));
  }

  lemma YearIsUnique(n: int, y: int, z: int)
    requires DaysBeforeYear(y) < n <= DaysBeforeYear(y + 1) && DaysBeforeYear(z) < n <= DaysBeforeYear(z + 1)
    ensures y == z
  {}

  /** ISO weeks partition the days: two days share (year, week) exactly when they share a Monday. */
  lemma WeeksPartitionDays(a: Date, b: Date)
    requires IsDate(a) && IsDate(b)
    ensures IsoYear(a) == IsoYear(b) && IsoWeek(a) == IsoWeek(b) <==> Monday(a) == Monday(b)
  {
    IsoWeekFromMonday(a);
    IsoWeekFromMonday(b);
    if Monday(a) == Monday(b) { MondayDecidesTheYear(a, b); }
  }

  /** 4 January is always in week 1 of its year. */
  lemma FourthOfJanuary(y: int)
    ensures IsoYear(Date(y, 1, 4)) == y && IsoWeek(Date(y, 1, 4)) == 1
  {}

  // -- The last week ----------------------------------------------------------

  predicate IsLongYear(y: int) {
    var january1 := Weekday(Date(y, 1, 1));
    january1 == 4 || (IsLeap(y) && january1 == 3)
  }

  lemma LastWeekArithmetic(start: int, length: int)
    requires length == 365 || length == 366
    ensures var n := start + length - 3; var thursday := n - (n - 1) % 7 + 3;
            start < thursday <= start + length
            && (thursday - start - 1) / 7 + 1 == if start % 7 == 3 || (length == 366 && start % 7 == 2) then 53 else 52
  {}

  lemma DecemberAndJanuary(y: int)
    ensures DayNumber(Date(y, 12, 28)) == DaysBeforeYear(y) + YearLength(y) - 3
    ensures DayNumber(Date(y, 1, 1)) == DaysBeforeYear(y) + 1
  {
    MonthTable(y, 12);
  }

  /** 28 December is always in the last ISO week of its year, which is 53 exactly in long years. */
  lemma TwentyEighthOfDecember(y: int)
    ensures IsoYear(Date(y, 12, 28)) == y
    ensures IsoWeek(Date(y, 12, 28)) == if IsLongYear(y) then 53 else 52
  {
    YearStep(y);
    DecemberAndJanuary(y);
    LastWeekArithmetic(DaysBeforeYear(y), YearLength(y));
  }

  /** It bounds every week number of the ISO year, and the bound is reached by that day. */
  lemma LastWeekBoundsEveryWeek(d: Date)
    requires IsDate(d)
    ensures 1 <= IsoWeek(d) <= IsoWeek(Date(IsoYear(d), 12, 28)) <= 53
  {
    var y := IsoYear(d);
    var last := Date(y, 12, 28);
    IsoWeekFromMonday(d);
    TwentyEighthOfDecember(y);
    IsoWeekFromMonday(last);
    ThursdayIsInIsoYear(d);
    MonthTable(y, 12);
    YearStep(y);
    MondaysAreMondays(d);
    MondaysAreMondays(last);
    assert DayNumber(last) == DaysBeforeYear(y + 1) - 3;
  }
}
