/** Shifting a timestamp back by a band's offset, and what the shift does to the order of time. */
module Offsets {
  import opened Wrappers
  import opened Calendar
  import opened Integers
  import opened Segments

  datatype Offset = Offset(months: Option<int>, days: Option<int>, hours: Option<int>, minutes: Option<int>)

  const U32 := 0x1_0000_0000
  const I32_MAX := 0x7FFF_FFFF
  const I64_MAX := 0x7FFF_FFFF_FFFF_FFFF

  /** The seconds a duration can hold, either way. */
  const MAX_SECONDS := I64_MAX / 1000

  function OrZero(o: Option<int>): int {
    if o.Some? then o.value else 0
  }

  // -- Months -----------------------------------------------------------------

  /** The same day `m` months earlier, clamped to the length of that month. */
  function MonthsEarlier(d: Date, m: int): (e: Date)
    requires IsDate(d)
    ensures IsDate(e)
  {
    var months := d.year * 12 + d.month - 1 - m;
    var (y, mo) := (months / 12, months % 12 + 1);
    Date(y, mo, if d.day > DaysInMonth(y, mo) then DaysInMonth(y, mo) else d.day)
  }

  function BackMonths(t: Timestamp, m: int): Timestamp
    requires IsDate(t.date)
  {
    Timestamp(MonthsEarlier(t.date, m), t.nanos)
  }

  /** The count is cast to 32 bits; what cannot be subtracted leaves the timestamp alone. */
  function ShiftMonths(t: Timestamp, m: int): (s: Timestamp)
    requires IsTimestamp(t)
    ensures IsTimestamp(s)
  {
    var k := m % U32;
    if m > 0 && k <= I32_MAX && Representable(MonthsEarlier(t.date, k)) then BackMonths(t, k) else t
  }

  // -- Days and minutes -------------------------------------------------------

  function ShiftDays(t: Timestamp, n: int): (s: Timestamp)
    requires IsTimestamp(t)
    ensures IsTimestamp(s)
  {
    if n > 0 && Representable(DaysEarlier(t.date, n)) then t.(date := DaysEarlier(t.date, n)) else t
  }

  /** Unlike the larger units, minutes panic when the span or the result is out of range. Negative
      minutes move the timestamp forward. */
  function ShiftMinutes(t: Timestamp, minutes: int): (s: Option<Timestamp>)
    requires IsTimestamp(t)
    ensures s.Some? ==> IsTimestamp(s.value)
  {
    var nanos := t.nanos - minutes * NANOS_PER_MINUTE;
    var date := DaysMoved(t.date, nanos / NANOS_PER_DAY);
    if !(-MAX_SECONDS <= minutes * 60 <= MAX_SECONDS) || !Representable(date) then None
    else Some(Timestamp(date, nanos % NANOS_PER_DAY))
  }

  predicate IsOffset(o: Offset) {
    OrZero(o.months) >= 0 && OrZero(o.days) >= 0 && OrZero(o.hours) >= 0 && OrZero(o.minutes) >= 0
  }

  /** In 64 bits, which the product and the sum may exceed: both wrap. */
  function Minutes(o: Offset): int {
    WrapI64(WrapI64(OrZero(o.hours) * 60) + OrZero(o.minutes))
  }

  function Shift(o: Offset, t: Timestamp): (s: Option<Timestamp>)
    requires IsOffset(o) && IsTimestamp(t)
    ensures s.Some? ==> IsTimestamp(s.value)
  {
    ShiftMinutes(ShiftDays(ShiftMonths(t, OrZero(o.months)), OrZero(o.days)), Minutes(o))
  }

  /** Months, then days, then minutes, each on the result of the last. */
  method Apply(o: Offset, captured: Timestamp) returns (r: Option<Timestamp>)
    requires IsOffset(o) && IsTimestamp(captured)
    ensures r == Shift(o, captured)
  {
    var t := captured;
    if o.months.Some? && o.months.value > 0 { t := ShiftMonths(t, o.months.value); }
    if o.days.Some? && o.days.value > 0 { t := ShiftDays(t, o.days.value); }
    var minutes := Minutes(o);
    ShiftNothing(t);
    r := Some(t);
    if minutes != 0 { r := ShiftMinutes(t, minutes); }
  }

  lemma ShiftNothing(t: Timestamp)
    requires IsTimestamp(t)
    ensures ShiftMinutes(t, 0) == Some(t)
  {}

  // -- What a shift means -----------------------------------------------------

  /** Days subtract exactly on the axis of time... */
  lemma DaysSubtract(t: Timestamp, n: nat)
    requires IsTimestamp(t) && Representable(DaysEarlier(t.date, n))
    ensures Instant(ShiftDays(t, n)) == Instant(t) - n * NANOS_PER_DAY
  {
    DaysEarlierExact(t.date, n);
  }

  /** ...and so do minutes, borrowing across midnight. */
  lemma MinutesSubtract(t: Timestamp, minutes: int)
    requires IsTimestamp(t) && ShiftMinutes(t, minutes).Some?
    ensures Instant(ShiftMinutes(t, minutes).value) == Instant(t) - minutes * NANOS_PER_MINUTE
  {
    DaysMovedExact(t.date, (t.nanos - minutes * NANOS_PER_MINUTE) / NANOS_PER_DAY);
  }

  /** Months subtract exactly on the axis of months, to the last day of that month that is not after the
      day of the month, at the same time of day. */
  lemma MonthsSubtract(t: Timestamp, m: int)
    requires IsTimestamp(t) && 0 < m <= I32_MAX && Representable(MonthsEarlier(t.date, m))
    ensures var s := ShiftMonths(t, m);
      && 12 * s.date.year + s.date.month == 12 * t.date.year + t.date.month - m
      && s.date.day <= t.date.day && s.nanos == t.nanos
      && forall day :: IsDate(Date(s.date.year, s.date.month, day)) && day <= t.date.day ==> day <= s.date.day
  {
    var months := t.date.year * 12 + t.date.month - 1 - m;
    assert months == 12 * (months / 12) + months % 12;
  }

  predicate IsTimeOfDay(t: Timestamp) {
    IsDate(t.date) && 0 <= t.nanos < NANOS_PER_DAY
  }

  lemma InstantOrders(s: Timestamp, t: Timestamp)
    requires IsTimeOfDay(s) && IsTimeOfDay(t)
    ensures Instant(s) <= Instant(t) <==> Before(s.date, t.date) || (s.date == t.date && s.nanos <= t.nanos)
  {
    DayNumberOrders(s.date, t.date);
    DayNumberOrders(t.date, s.date);
  }

  // -- Month offsets and the order of time ------------------------------------

  /** Months between the first and the last representable month. */
  const SPAN := 12 * (MAX_YEAR - MIN_YEAR) + 11

  /** The months the code subtracts, from the cast of the setting; none where it leaves all alone. */
  predicate Moves(m: int) {
    m > 0 && 1 <= m % U32 <= SPAN
  }

  predicate IsMoved(t: Timestamp, m: int)
    requires IsTimestamp(t)
  {
    m > 0 && 1 <= m % U32 <= I32_MAX && Representable(MonthsEarlier(t.date, m % U32))
  }

  lemma MovedIsShifted(t: Timestamp, m: int)
    requires IsTimestamp(t)
    ensures ShiftMonths(t, m) == if IsMoved(t, m) then BackMonths(t, m % U32) else t
    ensures IsMoved(t, m) ==> Moves(m)
  {
    if m % U32 == 0 { assert MonthsEarlier(t.date, 0) == t.date; }
  }

  ghost predicate KeepsOrder(m: int) {
    forall s: Timestamp, t: Timestamp ::
      IsTimestamp(s) && IsTimestamp(t) && Instant(s) <= Instant(t) ==>
      Instant(ShiftMonths(s, m)) <= Instant(ShiftMonths(t, m))
  }

  /** What cannot be subtracted stays, and what just can goes back to the first representable month. */
  lemma FallbackReverses(m: int) returns (s: Timestamp, t: Timestamp)
    requires Moves(m)
    ensures IsTimestamp(s) && IsTimestamp(t) && Instant(s) < Instant(t)
    ensures Instant(ShiftMonths(s, m)) > Instant(ShiftMonths(t, m))
  {
    var first := MIN_YEAR * 12 + m % U32;
    s := Timestamp(Date((first - 1) / 12, (first - 1) % 12 + 1, 2), 0);
    t := Timestamp(Date(first / 12, first % 12 + 1, 1), 0);
    assert MonthsEarlier(t.date, m % U32) == Date(MIN_YEAR, 1, 1);
    assert MonthsEarlier(s.date, m % U32).year == MIN_YEAR - 1;
    MovedIsShifted(s, m);
    MovedIsShifted(t, m);
    InstantOrders(t, s);
    InstantOrders(s, ShiftMonths(t, m));
  }

  /** Over all timestamps, a month offset keeps the order of time exactly when it moves none of them:
      the fallback for dates out of range leaves a timestamp alone that a later one is moved past. */
  lemma MonthsKeepOrderExactly(m: int)
    ensures KeepsOrder(m) <==> !Moves(m)
  {
    if Moves(m) {
      var s, t := FallbackReverses(m);
      assert !KeepsOrder(m);
    } else {
      forall t: Timestamp | IsTimestamp(t) ensures ShiftMonths(t, m) == t { MovedIsShifted(t, m); }
    }
  }

  /** The first of the year -261800 stays under an offset of 400 years, and the later first of
      -261743 is moved before it. */
  lemma CyclesReverseAtTheEdge()
    ensures var s, t := Timestamp(Date(-261800, 1, 1), 0), Timestamp(Date(-261743, 1, 1), 0);
            Instant(s) < Instant(t) && ShiftMonths(s, 4800) == s && ShiftMonths(t, 4800).date == Date(-262143, 1, 1)
            && Instant(ShiftMonths(t, 4800)) < Instant(s)
  {
    var s, t := Timestamp(Date(-261800, 1, 1), 0), Timestamp(Date(-261743, 1, 1), 0);
    assert MonthsEarlier(s.date, 4800) == Date(-262200, 1, 1) && MonthsEarlier(t.date, 4800) == Date(-262143, 1, 1);
    InstantOrders(t, s);
    InstantOrders(s, ShiftMonths(t, 4800));
  }

  lemma DatesKeepOrder(a: Date, b: Date, k: int)
    requires IsDate(a) && IsDate(b) && !Before(b, a)
    ensures !Before(MonthsEarlier(b, k), MonthsEarlier(a, k))
  {}

  /** Of two timestamps that it moves, a month offset never swaps the dates, but may make them equal. */
  lemma MovedKeepDateOrder(s: Timestamp, t: Timestamp, m: int)
    requires IsTimestamp(s) && IsTimestamp(t) && IsMoved(s, m) && IsMoved(t, m) && !Before(t.date, s.date)
    ensures !Before(ShiftMonths(t, m).date, ShiftMonths(s, m).date)
  {
    MovedIsShifted(s, m);
    MovedIsShifted(t, m);
    DatesKeepOrder(s.date, t.date, m % U32);
  }

  ghost predicate KeepsOrderWhereItMoves(m: int) {
    forall s: Timestamp, t: Timestamp ::
      IsTimestamp(s) && IsTimestamp(t) && IsMoved(s, m) && IsMoved(t, m) && Instant(s) <= Instant(t) ==>
      Instant(ShiftMonths(s, m)) <= Instant(ShiftMonths(t, m))
  }

  /** No month that can be moved is longer than the month `k` before it. */
  ghost predicate NeverClamps(k: int) {
    forall y: int, mo: int :: MIN_YEAR <= y <= MAX_YEAR && 1 <= mo <= 12 && EarlierMonth(y, mo, k) >= MIN_YEAR * 12 ==>
      DaysInMonth(y, mo) <= DaysInMonth(EarlierMonth(y, mo, k) / 12, EarlierMonth(y, mo, k) % 12 + 1)
  }

  function EarlierMonth(y: int, mo: int, k: int): int {
    y * 12 + mo - 1 - k
  }

  /** Among the timestamps it moves, an offset keeps the order exactly when it never clamps a day:
      where it does, two neighbouring days become one, and an evening passes the next morning. */
  lemma MovedKeepOrderExactly(m: int)
    requires Moves(m)
    ensures KeepsOrderWhereItMoves(m) <==> NeverClamps(m % U32)
  {
    var k := m % U32;
    if NeverClamps(k) {
      forall s: Timestamp, t: Timestamp
        | IsTimestamp(s) && IsTimestamp(t) && IsMoved(s, m) && IsMoved(t, m) && Instant(s) <= Instant(t)
        ensures Instant(ShiftMonths(s, m)) <= Instant(ShiftMonths(t, m))
      {
        MovedIsShifted(s, m);
        MovedIsShifted(t, m);
        UnclampedKeepsOrder(s, t, k);
      }
    } else {
      var y, mo :| MIN_YEAR <= y <= MAX_YEAR && 1 <= mo <= 12 && EarlierMonth(y, mo, k) >= MIN_YEAR * 12
        && DaysInMonth(y, mo) > DaysInMonth(EarlierMonth(y, mo, k) / 12, EarlierMonth(y, mo, k) % 12 + 1);
      var s, t := EveningBeforeMorning(y, mo, k);
      MovedIsShifted(s, m);
      MovedIsShifted(t, m);
      assert !KeepsOrderWhereItMoves(m);
    }
  }

  lemma UnclampedDay(d: Date, k: int)
    requires NeverClamps(k) && Representable(d) && Representable(MonthsEarlier(d, k))
    ensures MonthsEarlier(d, k).day == d.day
  {
    var e := EarlierMonth(d.year, d.month, k);
    assert MonthsEarlier(d, k).year == e / 12 && MonthsEarlier(d, k).month == e % 12 + 1;
    assert e >= MIN_YEAR * 12;
    assert DaysInMonth(d.year, d.month) <= DaysInMonth(e / 12, e % 12 + 1);
  }

  lemma UnclampedDates(a: Date, b: Date, k: int)
    requires IsDate(a) && IsDate(b) && MonthsEarlier(a, k).day == a.day && MonthsEarlier(b, k).day == b.day
    ensures Before(a, b) ==> Before(MonthsEarlier(a, k), MonthsEarlier(b, k))
  {}

  lemma UnclampedKeepsOrder(s: Timestamp, t: Timestamp, k: int)
    requires IsTimestamp(s) && IsTimestamp(t) && Instant(s) <= Instant(t) && NeverClamps(k)
    requires Representable(MonthsEarlier(s.date, k)) && Representable(MonthsEarlier(t.date, k))
    ensures Instant(BackMonths(s, k)) <= Instant(BackMonths(t, k))
  {
    UnclampedDay(s.date, k);
    UnclampedDay(t.date, k);
    UnclampedDates(s.date, t.date, k);
    InstantOrders(s, t);
    InstantOrders(BackMonths(s, k), BackMonths(t, k));
  }

  lemma CycleKeepsLength(y: int, mo: int, k: int)
    requires k % 4800 == 0 && 1 <= mo <= 12
    ensures DaysInMonth(EarlierMonth(y, mo, k) / 12, EarlierMonth(y, mo, k) % 12 + 1) == DaysInMonth(y, mo)
  {
    var j := k / 4800;
    assert EarlierMonth(y, mo, k) == 12 * (y - 400 * j) + (mo - 1);
    assert EarlierMonth(y, mo, k) / 12 == y - 400 * j && EarlierMonth(y, mo, k) % 12 == mo - 1;
    LeapCycle(y, j);
  }

  lemma CyclesNeverClamp(k: int)
    requires k % 4800 == 0
    ensures NeverClamps(k)
  {
    forall y: int, mo: int | 1 <= mo <= 12
      ensures DaysInMonth(EarlierMonth(y, mo, k) / 12, EarlierMonth(y, mo, k) % 12 + 1) == DaysInMonth(y, mo)
    {
      CycleKeepsLength(y, mo, k);
    }
  }

  /** The latest year that is a whole number of cycles from `y`. */
  lemma LateYear(y: int) returns (late: int)
    ensures MAX_YEAR - 400 < late <= MAX_YEAR && (late - y) % 400 == 0
  {
    late := MAX_YEAR - (MAX_YEAR - y) % 400;
    var j := (MAX_YEAR - y) / 400;
    assert late - y == 400 * j;
    assert (late - y) % 400 == 0;
  }

  /** Whole 400-year cycles never clamp, and as long as 400 years of timestamps can be moved, nothing
      else does without clamping. */
  lemma CyclesNeverClampExactly(k: int)
    requires 1 <= k <= SPAN
    ensures k % 4800 == 0 ==> NeverClamps(k)
    ensures k <= SPAN - 4799 ==> (NeverClamps(k) <==> k % 4800 == 0)
  {
    if k % 4800 == 0 {
      CyclesNeverClamp(k);
    } else if k <= SPAN - 4799 {
      var y, mo := ClampedMonth(k);
      var late := LateYear(y);
      LateTwin(y, late, mo, k);
      assert EarlierMonth(late, mo, k) >= MIN_YEAR * 12;
    }
  }

  /** Months repeat their length every 400 years. */
  lemma LateTwin(y: int, late: int, mo: int, k: int)
    requires (late - y) % 400 == 0 && 1 <= mo <= 12
    ensures DaysInMonth(late, mo) == DaysInMonth(y, mo)
    ensures DaysInMonth(EarlierMonth(late, mo, k) / 12, EarlierMonth(late, mo, k) % 12 + 1)
         == DaysInMonth(EarlierMonth(y, mo, k) / 12, EarlierMonth(y, mo, k) % 12 + 1)
  {
    var j := (late - y) / 400;
    assert late == y + 400 * j;
    LeapCycle(late, j);
    assert EarlierMonth(late, mo, k) == EarlierMonth(y, mo, k) + 12 * (400 * j);
    AddYears(EarlierMonth(y, mo, k), 400 * j);
    LeapCycle(EarlierMonth(late, mo, k) / 12, j);
  }

  lemma AddYears(months: int, years: int)
    ensures (months + 12 * years) / 12 == months / 12 + years && (months + 12 * years) % 12 == months % 12
  {}

  /** From 30 March at 23:00 and 31 March at 01:00, one month back is 28 February at 23:00 and 01:00. */
  lemma MarchEveningPassesMorning()
    ensures var s := Timestamp(Date(2001, 3, 30), 23 * NANOS_PER_HOUR);
            var t := Timestamp(Date(2001, 3, 31), NANOS_PER_HOUR);
            ShiftMonths(s, 1) == Timestamp(Date(2001, 2, 28), 23 * NANOS_PER_HOUR)
            && ShiftMonths(t, 1) == Timestamp(Date(2001, 2, 28), NANOS_PER_HOUR)
  {}

  lemma LeapCycle(y: int, k: int)
    ensures IsLeap(y - 400 * k) == IsLeap(y)
  {
    ShiftMod4(y, 100 * k);
    ShiftMod100(y, 4 * k);
    ShiftMod400(y, k);
  }

  lemma ShiftMod4(y: int, j: int)
    ensures (y - 4 * j) % 4 == y % 4
  {}

  lemma ShiftMod100(y: int, j: int)
    ensures (y - 100 * j) % 100 == y % 100
  {}

  lemma ShiftMod400(y: int, j: int)
    ensures (y - 400 * j) % 400 == y % 400
  {}

  /** Some month is longer than the month `m` before it. */
  lemma ClampedMonth(m: int) returns (y: int, mo: int)
    requires m % 4800 != 0
    ensures 1 <= mo <= 12
    ensures var months := y * 12 + mo - 1 - m; DaysInMonth(months / 12, months % 12 + 1) < DaysInMonth(y, mo)
  {
    if m % 12 != 0 {
      y, mo := 2000, ShorterBefore(m % 12);
      ShorterMonth(mo, m);
    } else {
      var k := m / 12;
      mo := 2;
      y := if k % 100 == 0 || k % 4 != 0 then 0 else 100 + k;
      WholeYears(m, k);
      NotLeapBefore(k);
      FebruaryOfShift(y, m, k);
    }
  }

  lemma ShorterMonth(mo: int, m: int)
    requires 1 <= mo <= 12 && mo in {1, 3, 5, 7, 8, 10, 12} && (mo - 1 - m % 12) % 12 + 1 in {2, 6, 4}
    ensures var months := 2000 * 12 + mo - 1 - m;
            DaysInMonth(months / 12, months % 12 + 1) < DaysInMonth(2000, mo)
  {
    MonthOfShift(2000, mo, m);
  }

  lemma WholeYears(m: int, k: int)
    requires m % 12 == 0 && k == m / 12 && m % 4800 != 0
    ensures m == 12 * k && k % 400 != 0
  {}

  lemma FebruaryOfShift(y: int, m: int, k: int)
    requires m == 12 * k
    ensures (y * 12 + 2 - 1 - m) / 12 == y - k && (y * 12 + 2 - 1 - m) % 12 == 1
  {
    assert y * 12 + 1 - m == 12 * (y - k) + 1;
  }

  lemma MonthOfShift(y: int, mo: int, m: int)
    ensures (y * 12 + mo - 1 - m) % 12 == (mo - 1 - m % 12) % 12
  {}

  lemma NotLeapBefore(k: int)
    requires k % 400 != 0
    ensures if k % 100 == 0 || k % 4 != 0 then IsLeap(0) && !IsLeap(-k) else IsLeap(100 + k) && !IsLeap(100)
  {
    Negation(k, 4);
    Negation(k, 100);
    Negation(k, 400);
    if k % 4 == 0 {
      assert (100 + k) % 4 == 0;
      assert (100 + k) % 100 == k % 100;
    }
  }

  lemma Negation(k: int, n: int)
    requires n == 4 || n == 100 || n == 400
    ensures k % n == 0 <==> (-k) % n == 0
  {}

  /** A 31-day month whose month `r` earlier is shorter. */
  function ShorterBefore(r: int): (mo: int)
    requires 1 <= r <= 11
    ensures 1 <= mo <= 12 && mo in {1, 3, 5, 7, 8, 10, 12} && (mo - 1 - r) % 12 + 1 in {2, 6, 4}
  {
    match r
    case 1 => 3
    case 2 => 8
    case 3 => 5
    case 4 => 8
    case 5 => 7
    case 6 => 8
    case 7 => 1
    case 8 => 10
    case 9 => 3
    case 10 => 12
    case _ => 1
  }

  lemma EveningBeforeMorning(y: int, mo: int, k: int) returns (s: Timestamp, t: Timestamp)
    requires MIN_YEAR <= y <= MAX_YEAR && 1 <= mo <= 12 && k >= 1 && EarlierMonth(y, mo, k) >= MIN_YEAR * 12
    requires DaysInMonth(EarlierMonth(y, mo, k) / 12, EarlierMonth(y, mo, k) % 12 + 1) < DaysInMonth(y, mo)
    ensures IsTimestamp(s) && IsTimestamp(t) && Instant(s) < Instant(t)
    ensures Representable(MonthsEarlier(s.date, k)) && Representable(MonthsEarlier(t.date, k))
    ensures Instant(BackMonths(s, k)) > Instant(BackMonths(t, k))
  {
    var last := DaysInMonth(y, mo);
    s := Timestamp(Date(y, mo, last - 1), 23 * NANOS_PER_HOUR);
    t := Timestamp(Date(y, mo, last), NANOS_PER_HOUR);
    assert MonthsEarlier(s.date, k) == MonthsEarlier(t.date, k);
    InstantOrders(t, s);
    InstantOrders(BackMonths(s, k), BackMonths(t, k));
  }

  /** The order of the units matters: from 1 March 2001, one month and one day back is 31 January,
      where the day first would give 28 January. */
  lemma MonthsComeBeforeDays()
    ensures Shift(Offset(Some(1), Some(1), None, None), Timestamp(Date(2001, 3, 1), 0))
         == Some(Timestamp(Date(2001, 1, 31), 0))
    ensures MonthsEarlier(DaysEarlier(Date(2001, 3, 1), 1), 1) == Date(2001, 1, 28)
  {
    OneDayEarlier(Date(2001, 3, 1));
    MonthThenDay();
    ShiftNothing(Timestamp(Date(2001, 1, 31), 0));
    assert Minutes(Offset(Some(1), Some(1), None, None)) == 0;
  }

  lemma MonthThenDay()
    ensures var t := Timestamp(Date(2001, 3, 1), 0);
            ShiftMonths(t, 1) == Timestamp(Date(2001, 2, 1), 0)
            && ShiftDays(Timestamp(Date(2001, 2, 1), 0), 1) == Timestamp(Date(2001, 1, 31), 0)
  {
    OneDayEarlier(Date(2001, 2, 1));
  }

  lemma OneDayEarlier(d: Date)
    requires IsDate(d)
    ensures DaysEarlier(d, 1) == Previous(d)
  {
    assert DaysEarlier(d, 0) == d;
  }
}
