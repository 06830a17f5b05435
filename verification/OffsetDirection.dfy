/** An offset is documented to be subtracted, so that the boundaries of a band move later. When a shift
    goes back in time, and when the wrapped sum of hours and minutes sends it forward. */
module OffsetDirection {
  import opened Wrappers
  import opened Calendar
  import opened Integers
  import opened Segments
  import opened Offsets

  // -- The axis of time -------------------------------------------------------

  const FIRST_DAY := Date(MIN_YEAR, 1, 1)
  const LAST_DAY := Date(MAX_YEAR, 12, 31)

  /** From the first midnight to the last whole minute. */
  const ALL_MINUTES := 275_747_801_759

  lemma Extent()
    ensures IsDate(FIRST_DAY) && IsDate(LAST_DAY)
    ensures (DayNumber(LAST_DAY) - DayNumber(FIRST_DAY) + 1) * 24 * 60 - 1 == ALL_MINUTES
  {
    MonthTable(MAX_YEAR, 12);
  }

  /** The representable days are an interval of day numbers. */
  lemma RepresentableExactly(d: Date)
    requires IsDate(d)
    ensures IsDate(FIRST_DAY) && IsDate(LAST_DAY)
    ensures Representable(d) <==> DayNumber(FIRST_DAY) <= DayNumber(d) <= DayNumber(LAST_DAY)
  {
    Extent();
    DayNumberOrders(d, FIRST_DAY);
    DayNumberOrders(LAST_DAY, d);
  }

  lemma DayOfSum(day: int, nanos: int)
    ensures (day * NANOS_PER_DAY + nanos) / NANOS_PER_DAY == day + nanos / NANOS_PER_DAY
  {}

  lemma DayRange(target: int, first: int, last: int)
    ensures first <= target / NANOS_PER_DAY <= last
      <==> first * NANOS_PER_DAY <= target < (last + 1) * NANOS_PER_DAY
  {}

  predicate InTime(instant: int)
    ensures IsDate(FIRST_DAY) && IsDate(LAST_DAY)
  {
    Extent();
    DayNumber(FIRST_DAY) * NANOS_PER_DAY <= instant < (DayNumber(LAST_DAY) + 1) * NANOS_PER_DAY
  }

  /** A span between two points in time is one that a duration can hold. */
  lemma SpansFit(instant: int, minutes: int)
    requires InTime(instant) && InTime(instant - minutes * NANOS_PER_MINUTE)
    ensures -MAX_SECONDS <= minutes * 60 <= MAX_SECONDS
  {
    Extent();
  }

  /** Moving by minutes fails exactly when the result would leave the representable days. */
  lemma MinutesPanicExactly(t: Timestamp, minutes: int)
    requires IsTimestamp(t)
    ensures InTime(Instant(t))
    ensures ShiftMinutes(t, minutes).Some? <==> InTime(Instant(t) - minutes * NANOS_PER_MINUTE)
  {
    TimestampsAreInTime(t);
    TargetInTimeExactly(t, t.nanos - minutes * NANOS_PER_MINUTE);
    if InTime(Instant(t) - minutes * NANOS_PER_MINUTE) { SpansFit(Instant(t), minutes); }
  }

  lemma TimestampsAreInTime(t: Timestamp)
    requires IsTimestamp(t)
    ensures InTime(Instant(t))
  {
    RepresentableExactly(t.date);
  }

  /** The day that `nanos` counted from the start of the day of `t` falls on. */
  lemma TargetInTimeExactly(t: Timestamp, nanos: int)
    requires IsTimestamp(t)
    ensures Representable(DaysMoved(t.date, nanos / NANOS_PER_DAY))
      <==> InTime(DayNumber(t.date) * NANOS_PER_DAY + nanos)
  {
    DaysMovedExact(t.date, nanos / NANOS_PER_DAY);
    DayOfSum(DayNumber(t.date), nanos);
    RepresentableExactly(DaysMoved(t.date, nanos / NANOS_PER_DAY));
    DayRange(DayNumber(t.date) * NANOS_PER_DAY + nanos, DayNumber(FIRST_DAY), DayNumber(LAST_DAY));
  }

  // -- Back in time -----------------------------------------------------------

  lemma MonthsGoBack(t: Timestamp, m: int)
    requires IsTimestamp(t)
    ensures Instant(ShiftMonths(t, m)) <= Instant(t)
  {
    if ShiftMonths(t, m) != t { InstantOrders(ShiftMonths(t, m), t); }
  }

  lemma DaysGoBack(t: Timestamp, n: int)
    requires IsTimestamp(t)
    ensures Instant(ShiftDays(t, n)) <= Instant(t)
  {
    if n > 0 && Representable(DaysEarlier(t.date, n)) { DaysSubtract(t, n); }
  }

  /** No timestamp is shifted forward. */
  ghost predicate NeverLater(o: Offset)
    requires IsOffset(o)
  {
    forall t: Timestamp :: IsTimestamp(t) && Shift(o, t).Some? ==> Instant(Shift(o, t).value) <= Instant(t)
  }

  /** An offset never shifts forward exactly when its hours and minutes do not wrap to a negative span
      that some timestamp has room for. */
  lemma NeverLaterExactly(o: Offset)
    requires IsOffset(o)
    ensures NeverLater(o) <==> Minutes(o) >= 0 || -Minutes(o) > ALL_MINUTES
  {
    if Minutes(o) >= 0 || -Minutes(o) > ALL_MINUTES {
      forall t: Timestamp | IsTimestamp(t) && Shift(o, t).Some? ensures Instant(Shift(o, t).value) <= Instant(t) {
        ShiftGoesBack(o, t);
      }
    } else {
      FirstGoesForward(o);
    }
  }

  lemma ShiftGoesBack(o: Offset, t: Timestamp)
    requires IsOffset(o) && IsTimestamp(t) && Shift(o, t).Some?
    requires Minutes(o) >= 0 || -Minutes(o) > ALL_MINUTES
    ensures Instant(Shift(o, t).value) <= Instant(t)
  {
    var s := ShiftMonths(t, OrZero(o.months));
    var u := ShiftDays(s, OrZero(o.days));
    MonthsGoBack(t, OrZero(o.months));
    DaysGoBack(s, OrZero(o.days));
    MinutesSubtract(u, Minutes(o));
    if Minutes(o) < 0 { TooFarForward(u, Minutes(o)); }
  }

  lemma TooFarForward(t: Timestamp, minutes: int)
    requires IsTimestamp(t) && -minutes > ALL_MINUTES
    ensures ShiftMinutes(t, minutes).None?
  {
    MinutesPanicExactly(t, minutes);
    Extent();
  }

  /** The first timestamp stays under months and days, and then moves forward. */
  lemma FirstGoesForward(o: Offset)
    requires IsOffset(o) && 0 < -Minutes(o) <= ALL_MINUTES
    ensures !NeverLater(o)
  {
    Extent();
    var t := Timestamp(FIRST_DAY, 0);
    FirstStays(OrZero(o.months), OrZero(o.days));
    MinutesPanicExactly(t, Minutes(o));
    assert Shift(o, t) == ShiftMinutes(t, Minutes(o));
    MinutesSubtract(t, Minutes(o));
    assert IsTimestamp(t) && Shift(o, t).Some? && Instant(Shift(o, t).value) > Instant(t);
  }

  lemma FirstStays(m: int, n: int)
    ensures var t := Timestamp(FIRST_DAY, 0); IsTimestamp(t) && ShiftMonths(t, m) == t && ShiftDays(t, n) == t
  {
    var t := Timestamp(FIRST_DAY, 0);
    MovedIsShifted(t, m);
    if n > 0 {
      DaysEarlierExact(FIRST_DAY, n);
      RepresentableExactly(DaysEarlier(FIRST_DAY, n));
    }
  }

  /** Hours and minutes that fit in 64 bits go back by exactly their sum. */
  lemma FittingMinutesSubtract(o: Offset, t: Timestamp)
    requires IsOffset(o) && IsTimestamp(t) && OrZero(o.hours) * 60 + OrZero(o.minutes) <= I64_MAX
    ensures NeverLater(o)
    ensures var s := ShiftDays(ShiftMonths(t, OrZero(o.months)), OrZero(o.days));
            Shift(o, t).Some? ==>
              Instant(Shift(o, t).value)
                == Instant(s) - (OrZero(o.hours) * 60 + OrZero(o.minutes)) * NANOS_PER_MINUTE
  {
    var s := ShiftDays(ShiftMonths(t, OrZero(o.months)), OrZero(o.days));
    NeverLaterExactly(o);
    if Shift(o, t).Some? { MinutesSubtract(s, Minutes(o)); }
  }

  /** An accepted offset of 307445734561825860 hours moves midnight to sixteen minutes past. */
  lemma HugeHoursGoForward(day: Date)
    requires Representable(day)
    ensures var o := Offset(None, None, Some(307_445_734_561_825_860), None);
            IsOffset(o) && Shift(o, Timestamp(day, 0)) == Some(Timestamp(day, 16 * NANOS_PER_MINUTE))
  {
    var o := Offset(None, None, Some(307_445_734_561_825_860), None);
    assert Minutes(o) == -16;
    SixteenMinutesLater(day);
  }

  lemma SixteenMinutesLater(day: Date)
    requires Representable(day)
    ensures ShiftMinutes(Timestamp(day, 0), -16) == Some(Timestamp(day, 16 * NANOS_PER_MINUTE))
  {
    assert DaysMoved(day, 0) == day;
  }
}
