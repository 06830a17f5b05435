/** The calendar fields a template can name: projection, natural range and stride blocks. */
module Segments {
  import opened Wrappers
  import opened Calendar
  import Numerals

  // -- Timestamps -------------------------------------------------------------

  const MIN_YEAR := -262143
  const MAX_YEAR := 262142

  /** The years the date type can hold; constructing a date outside them yields nothing. */
  predicate Representable(d: Date) {
    IsDate(d) && MIN_YEAR <= d.year <= MAX_YEAR
  }

  const NANOS_PER_MINUTE := 60_000_000_000
  const NANOS_PER_HOUR := 60 * NANOS_PER_MINUTE
  const NANOS_PER_DAY := 24 * NANOS_PER_HOUR

  datatype Timestamp = Timestamp(date: Date, nanos: int)

  predicate IsTimestamp(t: Timestamp) {
    Representable(t.date) && 0 <= t.nanos < NANOS_PER_DAY
  }

  /** Nanoseconds on a common axis. */
  function Instant(t: Timestamp): int
    requires IsDate(t.date)
  {
    DayNumber(t.date) * NANOS_PER_DAY + t.nanos
  }

  // -- Projection -------------------------------------------------------------

  datatype Placeholder = Year | IsoYear | Quarter | Season | Month | Week | Day | Weekday | Daypart

  datatype Hemisphere = North | South

  /** 1 is winter; the south is half a year on. */
  function SeasonIndex(month: int, hemisphere: Hemisphere): int {
    var north := if month == 12 || month == 1 || month == 2 then 1 else if 3 <= month <= 5 then 2
                 else if 6 <= month <= 8 then 3 else 4;
    match hemisphere
    case North => north
    case South => (north + 1) % 4 + 1
  }

  function Projected(ph: Placeholder, t: Timestamp, hemisphere: Hemisphere): int
    requires IsTimestamp(t)
  {
    match ph
    case Year => t.date.year
    case IsoYear => Calendar.IsoYear(t.date)
    case Quarter => (t.date.month - 1) / 3 + 1
    case Season => SeasonIndex(t.date.month, hemisphere)
    case Month => t.date.month
    case Week => IsoWeek(t.date)
    case Day => t.date.day
    case Weekday => Calendar.Weekday(t.date)
    case Daypart => t.nanos / NANOS_PER_HOUR / 6 + 1
  }

  /** The day before the first of the next month; None where that first cannot be constructed. */
  function LastDayOfMonth(d: Date): Option<int>
    requires IsDate(d)
  {
    var next := if d.month == 12 then Date(d.year + 1, 1, 1) else Date(d.year, d.month + 1, 1);
    if Representable(next) then Some(Previous(next).day) else None
  }

  lemma LastDayOfMonthExact(d: Date)
    requires Representable(d)
    ensures LastDayOfMonth(d) ==
      if d.year == MAX_YEAR && d.month == 12 then None else Some(DaysInMonth(d.year, d.month))
    ensures LastDayOfMonth(d).Some? ==> d.day <= LastDayOfMonth(d).value
  {}

  function LastIsoWeek(d: Date): Option<int>
    requires IsDate(d)
  {
    var dec28 := Date(Calendar.IsoYear(d), 12, 28);
    if Representable(dec28) then Some(IsoWeek(dec28)) else None
  }

  const OPEN_CYCLE := 0x7FFF_FFFF_FFFF_FFFF / 4

  /** The inclusive natural range of a field; None where computing it panics. */
  function FieldRange(ph: Placeholder, t: Timestamp): Option<(int, int)>
    requires IsTimestamp(t)
  {
    match ph
    case Year | IsoYear => Some((0, OPEN_CYCLE))
    case Quarter | Season | Daypart => Some((1, 4))
    case Month => Some((1, 12))
    case Week => (var w := LastIsoWeek(t.date); if w.Some? then Some((1, w.value)) else None)
    case Day => (var d := LastDayOfMonth(t.date); if d.Some? then Some((1, d.value)) else None)
    case Weekday => Some((1, 7))
  }

  lemma IsoYearIsNear(d: Date)
    requires IsDate(d)
    ensures d.year - 1 <= Calendar.IsoYear(d) <= d.year + 1
  {}

  /** Computing the range panics only in the last December and in weeks that belong to an ISO year
      outside the representable ones. */
  lemma RangePanicsExactly(ph: Placeholder, t: Timestamp)
    requires IsTimestamp(t)
    ensures FieldRange(ph, t).None? <==>
      || (ph == Day && t.date.year == MAX_YEAR && t.date.month == 12)
      || (ph == Week && !(MIN_YEAR <= Calendar.IsoYear(t.date) <= MAX_YEAR))
  {}

  /** Every projected value lies in its declared range, but for years before year 0. */
  lemma ProjectedInRangeExactly(ph: Placeholder, t: Timestamp, hemisphere: Hemisphere)
    requires IsTimestamp(t) && FieldRange(ph, t).Some?
    ensures var (lo, hi) := FieldRange(ph, t).value; var v := Projected(ph, t, hemisphere);
            lo <= v <= hi <==> !(ph == Year && t.date.year < 0) && !(ph == IsoYear && Calendar.IsoYear(t.date) < 0)
  {
    IsoYearIsNear(t.date);
    if ph == Week {
      LastWeekBoundsEveryWeek(t.date);
    } else if ph == Day {
      LastDayOfMonthExact(t.date);
    } else if ph == Daypart {
      DaypartBounds(t.nanos);
    }
  }

  lemma DaypartBounds(nanos: int)
    requires 0 <= nanos < NANOS_PER_DAY
    ensures 1 <= nanos / NANOS_PER_HOUR / 6 + 1 <= 4
  {}

  /** Opposite hemispheres are always two seasons apart, and seasons are runs of three months. */
  lemma SeasonsAreOpposite(month: int)
    requires 1 <= month <= 12
    ensures (SeasonIndex(month, South) - SeasonIndex(month, North)) % 4 == 2
    ensures SeasonIndex(month, South) == SeasonIndex((month + 5) % 12 + 1, North)
    ensures SeasonIndex(month, North) == month % 12 / 3 + 1
  {}

  // -- Stride blocks ----------------------------------------------------------

  /** Division that truncates toward zero. */
  function Truncated(a: int, b: int): int
    requires b > 0
  {
    if a >= 0 then a / b else -((-a) / b)
  }

  function BlockStart(raw: int, origin: int, stride: int): int
    requires stride >= 1
  {
    origin + Truncated(raw - origin, stride) * stride
  }

  lemma DivMod(a: int, b: int)
    requires b > 0
    ensures a == a / b * b + a % b && 0 <= a % b < b
  {}

  lemma MultipleMod(q: int, b: int)
    requires b > 0
    ensures (q * b) % b == 0 && q * b / b == q
  {
    DivMod(q * b, b);
    var r := (q * b) % b;
    var k := q - q * b / b;
    assert r == k * b by { assert q * b - q * b / b * b == (q - q * b / b) * b; }
    ProductBound(k, 0, b);
    ProductBound(0, k, b);
  }

  lemma ProductBound(p: int, q: int, b: int)
    requires b > 0
    ensures p < q ==> (p + 1) * b <= q * b
  {}

  /** The block start is aligned; it and its stride hold the value exactly when the value is not below
      the origin, or sits on a block boundary (truncation rounds the others up). */
  lemma BlockHoldsExactly(raw: int, origin: int, stride: int)
    requires stride >= 1
    ensures (BlockStart(raw, origin, stride) - origin) % stride == 0
    ensures BlockStart(raw, origin, stride) <= raw < BlockStart(raw, origin, stride) + stride
      <==> raw >= origin || (origin - raw) % stride == 0
  {
    MultipleMod(Truncated(raw - origin, stride), stride);
    if raw >= origin {
      DivMod(raw - origin, stride);
    } else {
      DivMod(origin - raw, stride);
      NegatedProduct((origin - raw) / stride, stride);
    }
  }

  lemma NegatedProduct(q: int, b: int)
    ensures (-q) * b == -(q * b)
  {}

  /** Blocks partition the values from the origin up: two values have the same start exactly when one
      aligned block holds both. */
  lemma BlocksPartition(a: int, b: int, origin: int, stride: int)
    requires stride >= 1 && a >= origin && b >= origin
    ensures BlockStart(a, origin, stride) == BlockStart(b, origin, stride)
      <==> BlockStart(a, origin, stride) <= b < BlockStart(a, origin, stride) + stride
  {
    BlockHoldsExactly(b, origin, stride);
    BlockHoldsExactly(a, origin, stride);
    if BlockStart(a, origin, stride) <= b < BlockStart(a, origin, stride) + stride {
      var p, q := Truncated(a - origin, stride), Truncated(b - origin, stride);
      SameQuotient(p, q, b - origin, stride);
    }
  }

  lemma SameQuotient(p: int, q: int, x: int, b: int)
    requires b >= 1 && p * b <= x < p * b + b && q * b <= x < q * b + b
    ensures p == q
  {
    ProductBound(p, q, b);
    ProductBound(q, p, b);
  }

  /** The end the range notation prints. */
  function BlockEnd(start: int, stride: int, inclusive: bool, cycleEnd: int): int {
    if inclusive then (if start + stride - 1 < cycleEnd then start + stride - 1 else cycleEnd) else start + stride
  }

  /** The inclusive end lies between the value and the end of the cycle, and is clamped only in the
      cycle's last block. */
  lemma InclusiveEndExact(raw: int, origin: int, stride: int, cycleEnd: int)
    requires stride >= 1 && origin <= raw <= cycleEnd
    ensures var start := BlockStart(raw, origin, stride);
            var end := BlockEnd(start, stride, true, cycleEnd);
            raw <= end <= cycleEnd && (end < start + stride - 1 <==> start + stride - 1 > cycleEnd)
  {}

  /** Two values render the same start number exactly when they share a block. */
  lemma SameStartTextIsSameBlock(a: int, b: int, origin: int, stride: int, pad: nat)
    requires stride >= 1 && a >= origin && b >= origin
    ensures Numerals.Format(BlockStart(a, origin, stride), pad) == Numerals.Format(BlockStart(b, origin, stride), pad)
      <==> BlockStart(a, origin, stride) <= b < BlockStart(a, origin, stride) + stride
  {
    BlocksPartition(a, b, origin, stride);
    if Numerals.Format(BlockStart(a, origin, stride), pad) == Numerals.Format(BlockStart(b, origin, stride), pad) {
      Numerals.FormatInjective(BlockStart(a, origin, stride), BlockStart(b, origin, stride), pad, pad);
    }
  }
}
