/** What a rendered tag reads: the parts of every level in template order, and for every named field the
    name of the season, month, weekday or part of the day that the timestamp falls in. */
module Renderings {
  import opened Wrappers
  import opened Segments
  import opened Templates
  import opened Segmentation
  import Calendar
  import Numerals
  import PlaceholderTheorems
  import SegmentationTheorems
  import Tags
  import Text

  // -- Levels -----------------------------------------------------------------

  /** Texts one after the other. */
  function InOrder(texts: seq<string>): string {
    if texts == [] then [] else texts[0] + InOrder(texts[1..])
  }

  predicate IsTextOf(part: Part, text: string, t: Timestamp, hemisphere: Hemisphere, parts: map<string, PartConfig>)
    requires IsTimestamp(t)
  {
    match part
    case Literal(written) => text == written
    case Field(ph) => RenderPlaceholder(ph, t, hemisphere, ConfigOf(ph, parts)) == Some(text)
  }

  /** The texts of the parts of a level, one by one. */
  predicate AreTexts(level: seq<Part>, texts: seq<string>, t: Timestamp, hemisphere: Hemisphere,
                     parts: map<string, PartConfig>)
    requires IsTimestamp(t)
  {
    |texts| == |level|
    && forall i :: 0 <= i < |level| ==> IsTextOf(level[i], texts[i], t, hemisphere, parts)
  }

  lemma {:induction false} InOrderAppend(texts: seq<string>, text: string)
    ensures InOrder(texts + [text]) == InOrder(texts) + text
  {
    if texts == [] {
      assert texts + [text] == [text] && [text][1..] == [];
    } else {
      assert (texts + [text])[1..] == texts[1..] + [text];
      InOrderAppend(texts[1..], text);
    }
  }

  /** A level reads its literals as they are written and its placeholders as they render, in template
      order. */
  lemma {:induction false} LevelReadsInOrder(
      level: seq<Part>, texts: seq<string>, t: Timestamp, hemisphere: Hemisphere, parts: map<string, PartConfig>)
    requires IsTimestamp(t) && AreTexts(level, texts, t, hemisphere, parts)
    ensures LevelText(level, t, hemisphere, parts) == Some(InOrder(texts))
  {
    if level != [] {
      var last := |level| - 1;
      LevelReadsInOrder(level[..last], texts[..last], t, hemisphere, parts);
      assert texts == texts[..last] + [texts[last]];
      InOrderAppend(texts[..last], texts[last]);
    }
  }

  lemma {:induction false} LevelHasTexts(
      level: seq<Part>, t: Timestamp, hemisphere: Hemisphere, parts: map<string, PartConfig>)
    returns (texts: seq<string>)
    requires IsTimestamp(t) && LevelText(level, t, hemisphere, parts).Some?
    ensures AreTexts(level, texts, t, hemisphere, parts)
    ensures LevelText(level, t, hemisphere, parts) == Some(InOrder(texts))
  {
    if level == [] {
      texts := [];
    } else {
      var last := |level| - 1;
      var rest := LevelHasTexts(level[..last], t, hemisphere, parts);
      texts := rest + [PartText(level[last], t, hemisphere, parts).value];
      OneMoreText(level, rest, texts[last], t, hemisphere, parts);
    }
    LevelReadsInOrder(level, texts, t, hemisphere, parts);
  }

  lemma OneMoreText(level: seq<Part>, texts: seq<string>, text: string, t: Timestamp, hemisphere: Hemisphere,
                    parts: map<string, PartConfig>)
    requires IsTimestamp(t) && level != [] && AreTexts(level[..|level| - 1], texts, t, hemisphere, parts)
    requires PartText(level[|level| - 1], t, hemisphere, parts) == Some(text)
    ensures AreTexts(level, texts + [text], t, hemisphere, parts)
  {
    assert IsTextOf(level[|level| - 1], text, t, hemisphere, parts);
    forall i | 0 <= i < |texts| ensures IsTextOf(level[i], texts[i], t, hemisphere, parts) {
      assert level[..|level| - 1][i] == level[i];
    }
  }

  /** Reading two stretches of a level one after the other reads the whole. */
  lemma LevelsConcatenate(
      a: seq<Part>, b: seq<Part>, t: Timestamp, hemisphere: Hemisphere, parts: map<string, PartConfig>)
    requires IsTimestamp(t)
    requires LevelText(a, t, hemisphere, parts).Some? && LevelText(b, t, hemisphere, parts).Some?
    ensures LevelText(a + b, t, hemisphere, parts)
         == Some(LevelText(a, t, hemisphere, parts).value + LevelText(b, t, hemisphere, parts).value)
  {
    var ta := LevelHasTexts(a, t, hemisphere, parts);
    var tb := LevelHasTexts(b, t, hemisphere, parts);
    TextsConcatenate(a, b, ta, tb, t, hemisphere, parts);
    LevelReadsInOrder(a + b, ta + tb, t, hemisphere, parts);
    InOrderConcat(ta, tb);
  }

  lemma TextsConcatenate(a: seq<Part>, b: seq<Part>, ta: seq<string>, tb: seq<string>,
                         t: Timestamp, hemisphere: Hemisphere, parts: map<string, PartConfig>)
    requires IsTimestamp(t) && AreTexts(a, ta, t, hemisphere, parts) && AreTexts(b, tb, t, hemisphere, parts)
    ensures AreTexts(a + b, ta + tb, t, hemisphere, parts)
  {}

  lemma {:induction false} InOrderConcat(a: seq<string>, b: seq<string>)
    ensures InOrder(a + b) == InOrder(a) + InOrder(b)
  {
    if a == [] {
      assert a + b == b;
    } else {
      assert (a + b)[1..] == a[1..] + b;
      InOrderConcat(a[1..], b);
    }
  }

  // -- Whole tags -------------------------------------------------------------

  lemma {:induction false} LabelAt(
      levels: seq<seq<Part>>, t: Timestamp, hemisphere: Hemisphere, parts: map<string, PartConfig>, i: nat)
    requires IsTimestamp(t) && LevelLabels(levels, t, hemisphere, parts).Some? && i < |levels|
    ensures LevelText(levels[i], t, hemisphere, parts).Some?
    ensures LevelLabels(levels, t, hemisphere, parts).value[i]
         == Tags.Slug(LevelText(levels[i], t, hemisphere, parts).value)
  {
    var last := |levels| - 1;
    if i < last { LabelAt(levels[..last], t, hemisphere, parts, i); }
  }

  /** The tag of a band of a valid config has the labels of the root, then one label per level: the
      slug of that level's texts, in template order, rendered for the timestamp moved by the offset. */
  lemma TagReadsTheTemplate(config: Config, b: nat, t: Timestamp, i: nat) returns (texts: seq<string>)
    requires ValidBandAt(config, b) && IsTimestamp(t) && BandTag(config, config.bands[b], t).Done?
    requires i < |Parsed(config.bands[b].template).value|
    ensures BandTag(config, config.bands[b], t).result.Some?
    ensures Shifted(config.bands[b], t).Some?
    ensures var band := config.bands[b];
            var root := Tags.Labels(Tags.TagPath(config.rootTag));
            var labels := Tags.Labels(BandTag(config, band, t).result.value);
            && |labels| == |root| + |Parsed(band.template).value| && labels[..|root|] == root
            && AreTexts(Parsed(band.template).value[i], texts, Shifted(band, t).value, config.hemisphere, band.parts)
            && labels[|root| + i] == Tags.Slug(InOrder(texts))
  {
    var band := config.bands[b];
    var s := Shifted(band, t).value;
    var levels := Parsed(band.template).value;
    var labels := LevelLabels(levels, s, config.hemisphere, band.parts).value;
    AcceptedTemplate(band.template);
    SegmentationTheorems.LabelsAreSlugs(levels, s, config.hemisphere, band.parts);
    SegmentationTheorems.UnderLabels(config.rootTag, labels);
    LabelAt(levels, s, config.hemisphere, band.parts, i);
    texts := LevelHasTexts(levels[i], s, config.hemisphere, band.parts);
  }

  predicate ValidBandAt(config: Config, b: nat) {
    SegmentationTheorems.ValidConfig(config) && b < |config.bands|
  }

  /** The level `{year}_{month}` on 1 June 2024 reads year first. */
  lemma YearThenMonth(nanos: int)
    requires 0 <= nanos < NANOS_PER_DAY
    ensures var t := Timestamp(Calendar.Date(2024, 6, 1), nanos);
            LevelText([Field(Year), Literal("_"), Field(Month)], t, North, map[]) == Some("2024_6")
  {
    var t := Timestamp(Calendar.Date(2024, 6, 1), nanos);
    FourDigits();
    LevelReadsInOrder([Field(Year), Literal("_"), Field(Month)], ["2024", "_", "6"], t, North, map[]);
    assert InOrder(["2024", "_", "6"]) == "2024" + ("_" + ("6" + [])) == "2024_6";
  }

  lemma FourDigits()
    ensures Numerals.Format(2024, 0) == "2024" && Numerals.Format(6, 0) == "6"
  {
    assert Numerals.Digits(2) == "2";
    assert Numerals.Digits(20) == "20";
    assert Numerals.Digits(202) == "202";
  }

  // -- Named fields -----------------------------------------------------------

  /** The months of each season. */
  function SeasonOf(month: int, hemisphere: Hemisphere): string {
    match hemisphere
    case North =>
      if month in {12, 1, 2} then "Winter" else if month in {3, 4, 5} then "Spring"
      else if month in {6, 7, 8} then "Summer" else "Autumn"
    case South =>
      if month in {12, 1, 2} then "Summer" else if month in {3, 4, 5} then "Autumn"
      else if month in {6, 7, 8} then "Winter" else "Spring"
  }

  function MonthNamed(month: int): string {
    match month
    case 1 => "January" case 2 => "February" case 3 => "March" case 4 => "April"
    case 5 => "May" case 6 => "June" case 7 => "July" case 8 => "August"
    case 9 => "September" case 10 => "October" case 11 => "November" case _ => "December"
  }

  /** Weekdays repeat every seven days; 1 January 2024 was a Monday. */
  function WeekdayNamed(d: Calendar.Date): string
    requires Calendar.IsDate(d)
  {
    match (Calendar.DayNumber(d) - Calendar.DayNumber(Calendar.Date(2024, 1, 1))) % 7
    case 0 => "Monday" case 1 => "Tuesday" case 2 => "Wednesday" case 3 => "Thursday"
    case 4 => "Friday" case 5 => "Saturday" case _ => "Sunday"
  }

  /** Six hours each, from midnight. */
  function DaypartOf(nanos: int): string {
    if nanos < 6 * NANOS_PER_HOUR then "Night" else if nanos < 12 * NANOS_PER_HOUR then "Morning"
    else if nanos < 18 * NANOS_PER_HOUR then "Afternoon" else "Evening"
  }

  function Spoken(ph: Placeholder, t: Timestamp, hemisphere: Hemisphere): string
    requires IsTimestamp(t)
  {
    match ph
    case Season => SeasonOf(t.date.month, hemisphere)
    case Month => MonthNamed(t.date.month)
    case Weekday => WeekdayNamed(t.date)
    case Daypart => DaypartOf(t.nanos)
    case _ => ""
  }

  function FirstThree(s: string): string {
    if |s| <= 3 then s else s[..3]
  }

  lemma NewYear2024IsMonday()
    ensures Calendar.DayNumber(Calendar.Date(2024, 1, 1)) == 738886
  {}

  /** A named field that is not strided reads the name of what the timestamp falls in, its first three
      letters when abbreviated, in the configured case. */
  lemma NamedFieldReads(ph: Placeholder, t: Timestamp, hemisphere: Hemisphere, pc: Option<PartConfig>)
    requires IsTimestamp(t) && HasNamedForm(ph) && !IsNumeric(ph, pc) && StrideOf(pc) == 1
    ensures var fmt := FormatOf(pc);
            var name := Spoken(ph, t, hemisphere);
            var shown := if fmt.abbrev == Some(true) then FirstThree(name) else name;
            RenderPlaceholder(ph, t, hemisphere, pc) == Some(ApplyCase(shown, Or(fmt.letters, Pascal)))
  {
    PlaceholderTheorems.NamesCoverTheRange(ph, t);
    SpokenIsNamed(ph, t, hemisphere, Or(FormatOf(pc).abbrev, false));
  }

  lemma SpokenIsNamed(ph: Placeholder, t: Timestamp, hemisphere: Hemisphere, abbrev: bool)
    requires IsTimestamp(t) && HasNamedForm(ph)
    ensures NameFor(ph, Projected(ph, t, hemisphere), abbrev) ==
      (if abbrev then FirstThree(Spoken(ph, t, hemisphere)) else Spoken(ph, t, hemisphere))
  {
    if ph == Season { SeasonIsNamed(t.date.month, hemisphere); }
    if ph == Month { MonthIsNamed(t.date.month); }
    if ph == Weekday { WeekdayIsNamed(t.date); }
    if ph == Daypart { DaypartIsNamed(t.nanos); }
    ShownName(ph, Projected(ph, t, hemisphere), abbrev);
  }

  lemma ShownName(ph: Placeholder, value: int, abbrev: bool)
    requires HasNamedForm(ph)
    ensures var name := NameFor(ph, value, false);
            NameFor(ph, value, abbrev) == if abbrev then FirstThree(name) else name
  {}

  lemma SeasonIsNamed(month: int, hemisphere: Hemisphere)
    requires 1 <= month <= 12
    ensures NameFor(Season, SeasonIndex(month, hemisphere), false) == SeasonOf(month, hemisphere)
  {}

  lemma MonthIsNamed(month: int)
    requires 1 <= month <= 12
    ensures NameFor(Month, month, false) == MonthNamed(month)
  {}

  lemma WeekdayIsNamed(d: Calendar.Date)
    requires Calendar.IsDate(d)
    ensures NameFor(Weekday, Calendar.Weekday(d), false) == WeekdayNamed(d)
  {
    NewYear2024IsMonday();
    WeekdayByRemainder(Calendar.DayNumber(d));
  }

  lemma DaypartIsNamed(nanos: int)
    requires 0 <= nanos < NANOS_PER_DAY
    ensures NameFor(Daypart, nanos / NANOS_PER_HOUR / 6 + 1, false) == DaypartOf(nanos)
  {
    SixHours(nanos);
  }

  lemma WeekdayByRemainder(n: int)
    ensures (n - 738886) % 7 == (n - 1) % 7
  {}

  lemma SixHours(nanos: int)
    requires 0 <= nanos < NANOS_PER_DAY
    ensures nanos / NANOS_PER_HOUR / 6 ==
      if nanos < 6 * NANOS_PER_HOUR then 0 else if nanos < 12 * NANOS_PER_HOUR then 1
      else if nanos < 18 * NANOS_PER_HOUR then 2 else 3
  {}

  /** A strided named field reads the name of the value that opens its block. */
  lemma StridedNameReads(ph: Placeholder, t: Timestamp, hemisphere: Hemisphere, pc: Option<PartConfig>)
    requires IsTimestamp(t) && HasNamedForm(ph) && !IsNumeric(ph, pc) && StrideOf(pc) > 1
    ensures var fmt := FormatOf(pc);
            exists m: int ::
              PlaceholderTheorems.OpensBlock(m, Projected(ph, t, hemisphere), 1, StrideOf(pc))
              && 1 <= m <= |FullNames(ph)|
              && var name := FullNames(ph)[m - 1];
                 var shown := if fmt.abbrev == Some(true) then FirstThree(name) else name;
                 RenderPlaceholder(ph, t, hemisphere, pc) == Some(ApplyCase(shown, Or(fmt.letters, Pascal)))
  {
    var raw := Projected(ph, t, hemisphere);
    var m := BlockStart(raw, 1, StrideOf(pc));
    PlaceholderTheorems.NamesCoverTheRange(ph, t);
    ProjectedInRangeExactly(ph, t, hemisphere);
    PlaceholderTheorems.StartOpens(raw, 1, StrideOf(pc));
    PlaceholderTheorems.StartNotBelowOrigin(raw, 1, StrideOf(pc));
    assert PlaceholderTheorems.OpensBlock(m, raw, 1, StrideOf(pc)) && 1 <= m <= |FullNames(ph)|;
  }

  // -- Numbers ----------------------------------------------------------------

  /** The Monday on or before a day, as a day number; 1 January 2024 was one. */
  function MondayOf(d: Calendar.Date): int
    requires Calendar.IsDate(d)
  {
    Calendar.DayNumber(d) - (Calendar.DayNumber(d) - Calendar.DayNumber(Calendar.Date(2024, 1, 1))) % 7
  }

  /** The week of a year that holds its 4 January is its first. */
  function FirstWeek(y: int): int {
    MondayOf(Calendar.Date(y, 1, 4))
  }

  /** What a field counts, told from the date and the time of day. */
  ghost predicate IsCounted(ph: Placeholder, t: Timestamp, hemisphere: Hemisphere, n: int)
    requires IsTimestamp(t)
  {
    match ph
    case Year => n == t.date.year
    case Month => n == t.date.month
    case Day => n == t.date.day
    case Quarter => 3 * n - 2 <= t.date.month <= 3 * n
    case Season => 1 <= n <= 4 && ["Winter", "Spring", "Summer", "Autumn"][n - 1] == SeasonOf(t.date.month, hemisphere)
    case Weekday => MondayOf(t.date) + n - 1 == Calendar.DayNumber(t.date)
    case Daypart => 6 * NANOS_PER_HOUR * (n - 1) <= t.nanos < 6 * NANOS_PER_HOUR * n
    case IsoYear => FirstWeek(n) <= MondayOf(t.date) < FirstWeek(n + 1)
    case Week => exists y :: FirstWeek(y) <= MondayOf(t.date) < FirstWeek(y + 1)
                             && MondayOf(t.date) == FirstWeek(y) + 7 * (n - 1)
  }

  lemma MondayIsMonday(d: Calendar.Date)
    requires Calendar.IsDate(d)
    ensures MondayOf(d) == Calendar.Monday(d)
  {
    NewYear2024IsMonday();
    WeekdayByRemainder(Calendar.DayNumber(d));
  }

  lemma FirstWeekIsFirst(y: int)
    ensures FirstWeek(y) == Calendar.FirstMonday(y)
  {
    MondayIsMonday(Calendar.Date(y, 1, 4));
    Calendar.FourthOfJanuary(y);
    Calendar.IsoWeekFromMonday(Calendar.Date(y, 1, 4));
  }

  lemma WeekIsCounted(d: Calendar.Date)
    requires Calendar.IsDate(d)
    ensures var y := Calendar.IsoYear(d);
            && FirstWeek(y) <= MondayOf(d) < FirstWeek(y + 1)
            && MondayOf(d) == FirstWeek(y) + 7 * (Calendar.IsoWeek(d) - 1)
  {
    var y := Calendar.IsoYear(d);
    MondayIsMonday(d);
    FirstWeekIsFirst(y);
    FirstWeekIsFirst(y + 1);
    Calendar.IsoWeekFromMonday(d);
    Calendar.ThursdayIsInIsoYear(d);
    Calendar.FirstThursday(y + 1);
  }

  lemma DaypartIsCounted(nanos: int)
    requires 0 <= nanos < NANOS_PER_DAY
    ensures var n := nanos / NANOS_PER_HOUR / 6 + 1;
            6 * NANOS_PER_HOUR * (n - 1) <= nanos < 6 * NANOS_PER_HOUR * n
  {
    SixHours(nanos);
  }

  lemma ProjectedIsCounted(ph: Placeholder, t: Timestamp, hemisphere: Hemisphere)
    requires IsTimestamp(t)
    ensures IsCounted(ph, t, hemisphere, Projected(ph, t, hemisphere))
  {
    if ph == Weekday { MondayIsMonday(t.date); }
    if ph == IsoYear || ph == Week { WeekIsCounted(t.date); }
    if ph == Daypart { DaypartIsCounted(t.nanos); }
  }

  /** Both ends of the field's range at `t` are values of timestamps with that range. */
  predicate Reaches(ph: Placeholder, t: Timestamp, hemisphere: Hemisphere, first: Timestamp, last: Timestamp)
    requires IsTimestamp(t) && FieldRange(ph, t).Some?
  {
    && IsTimestamp(first) && IsTimestamp(last)
    && FieldRange(ph, first) == FieldRange(ph, t) && FieldRange(ph, last) == FieldRange(ph, t)
    && Projected(ph, first, hemisphere) == FieldRange(ph, t).value.0
    && Projected(ph, last, hemisphere) == FieldRange(ph, t).value.1
  }

  lemma MonthsReach(ph: Placeholder, t: Timestamp, hemisphere: Hemisphere) returns (first: Timestamp, last: Timestamp)
    requires IsTimestamp(t) && ph in [Season, Quarter, Month]
    ensures Reaches(ph, t, hemisphere, first, last)
  {
    var a := if ph == Season && hemisphere == South then 7 else 1;
    var b := if ph == Season then (if hemisphere == North then 10 else 4) else 12;
    first, last := Timestamp(Calendar.Date(2001, a, 1), 0), Timestamp(Calendar.Date(2001, b, 1), 0);
  }

  lemma WeeksReach(t: Timestamp, hemisphere: Hemisphere) returns (first: Timestamp, last: Timestamp)
    requires IsTimestamp(t) && FieldRange(Week, t).Some?
    ensures Reaches(Week, t, hemisphere, first, last)
  {
    var y := Calendar.IsoYear(t.date);
    first, last := Timestamp(Calendar.Date(y, 1, 4), 0), Timestamp(Calendar.Date(y, 12, 28), 0);
    Calendar.FourthOfJanuary(y);
    Calendar.TwentyEighthOfDecember(y);
  }

  lemma DaysReach(t: Timestamp, hemisphere: Hemisphere) returns (first: Timestamp, last: Timestamp)
    requires IsTimestamp(t) && FieldRange(Day, t).Some?
    ensures Reaches(Day, t, hemisphere, first, last)
  {
    var (y, mo) := (t.date.year, t.date.month);
    first := t.(date := Calendar.Date(y, mo, 1));
    last := t.(date := Calendar.Date(y, mo, Calendar.DaysInMonth(y, mo)));
    LastDayOfMonthExact(t.date);
    LastDayOfMonthExact(first.date);
    LastDayOfMonthExact(last.date);
  }

  lemma JanuaryOf2024(day: int) returns (t: Timestamp)
    requires 1 <= day <= 7
    ensures IsTimestamp(t) && Calendar.Weekday(t.date) == day
  {
    t := Timestamp(Calendar.Date(2024, 1, day), 0);
    assert Calendar.DayNumber(t.date) == 738885 + day;
  }

  lemma WeekdaysReach(t: Timestamp, hemisphere: Hemisphere) returns (first: Timestamp, last: Timestamp)
    requires IsTimestamp(t)
    ensures Reaches(Weekday, t, hemisphere, first, last)
  {
    first := JanuaryOf2024(1);
    last := JanuaryOf2024(7);
  }

  lemma DaypartsReach(t: Timestamp, hemisphere: Hemisphere) returns (first: Timestamp, last: Timestamp)
    requires IsTimestamp(t)
    ensures Reaches(Daypart, t, hemisphere, first, last)
  {
    first, last := t.(nanos := 0), t.(nanos := 23 * NANOS_PER_HOUR);
  }

  /** The first and the last value of the range are reached within the cycle: no field's range is wider
      than its values. */
  lemma RangeIsReached(ph: Placeholder, t: Timestamp, hemisphere: Hemisphere)
    returns (first: Timestamp, last: Timestamp)
    requires IsTimestamp(t) && FieldRange(ph, t).Some? && ph != Year && ph != IsoYear
    ensures Reaches(ph, t, hemisphere, first, last)
  {
    if ph == Week {
      first, last := WeeksReach(t, hemisphere);
    } else if ph == Day {
      first, last := DaysReach(t, hemisphere);
    } else if ph == Weekday {
      first, last := WeekdaysReach(t, hemisphere);
    } else if ph == Daypart {
      first, last := DaypartsReach(t, hemisphere);
    } else {
      first, last := MonthsReach(ph, t, hemisphere);
    }
  }

  /** A number that is not strided reads, in decimal and with its padding, what the field counts. */
  lemma NumberReads(ph: Placeholder, t: Timestamp, hemisphere: Hemisphere, pc: Option<PartConfig>) returns (n: int)
    requires IsTimestamp(t) && IsNumeric(ph, pc) && StrideOf(pc) == 1
    requires RenderPlaceholder(ph, t, hemisphere, pc).Some?
    ensures IsCounted(ph, t, hemisphere, n)
    ensures RenderPlaceholder(ph, t, hemisphere, pc) == Some(Numerals.Format(n, PadOf(pc)))
  {
    n := Projected(ph, t, hemisphere);
    ProjectedIsCounted(ph, t, hemisphere);
  }

  // -- Case -------------------------------------------------------------------

  predicate IsUpperLetter(c: char) { 'A' <= c <= 'Z' }

  predicate IsLowerLetter(c: char) { 'a' <= c <= 'z' }

  /** The same character, or the two cases of one letter. */
  predicate SameLetter(a: char, b: char) {
    a == b || (IsUpperLetter(a) && b as int == a as int + 32) || (IsUpperLetter(b) && a as int == b as int + 32)
  }

  /** Changing the case keeps every letter; what is left is all small or all capital, as asked. */
  lemma CaseExact(s: string, letters: Case)
    ensures var r := ApplyCase(s, letters);
            && |r| == |s| && (forall i :: 0 <= i < |s| ==> SameLetter(r[i], s[i]))
            && (letters == Pascal ==> r == s)
            && (letters == Lower ==> forall i :: 0 <= i < |s| ==> !IsUpperLetter(r[i]))
            && (letters == Upper ==> forall i :: 0 <= i < |s| ==> !IsLowerLetter(r[i]))
  {}
}
