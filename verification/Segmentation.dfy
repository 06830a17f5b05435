/** Calendar segmentation: the first band that covers a timestamp renders one tag under a root. */
module Segmentation {
  import opened Wrappers
  import opened Segments
  import opened Templates
  import opened Offsets
  import Calendar
  import Numerals
  import Tags
  import Text

  // -- Configuration ----------------------------------------------------------

  datatype Case = Lower | Upper | Pascal

  datatype Bound = Start | End | Range

  datatype PartFormat = PartFormat(
    numeric: Option<bool>, pad: Option<nat>, abbrev: Option<bool>, letters: Option<Case>,
    bound: Option<Bound>, rangeSep: Option<string>, inclusiveEnd: Option<bool>)

  datatype PartConfig = PartConfig(stride: Option<nat>, format: Option<PartFormat>)

  const NO_FORMAT := PartFormat(None, None, None, None, None, None, None)

  datatype Band = Band(
    since: Option<Calendar.Date>, until: Option<Calendar.Date>, enabled: bool, template: string,
    parts: map<string, PartConfig>, offset: Option<Offset>)

  datatype CatchAll = CatchAll(name: string, includeUndated: bool)

  datatype Config = Config(
    version: int, rootTag: string, hemisphere: Hemisphere, catchAll: Option<CatchAll>, bands: seq<Band>)

  // -- Rendering one placeholder ----------------------------------------------

  predicate HasNamedForm(ph: Placeholder) {
    ph == Season || ph == Month || ph == Weekday || ph == Daypart
  }

  predicate NumericByDefault(ph: Placeholder) {
    ph != Season && ph != Weekday && ph != Daypart
  }

  function Or<T>(o: Option<T>, default_: T): T {
    if o.Some? then o.value else default_
  }

  function FormatOf(pc: Option<PartConfig>): PartFormat {
    if pc.Some? then Or(pc.value.format, NO_FORMAT) else NO_FORMAT
  }

  function StrideOf(pc: Option<PartConfig>): (stride: int)
    ensures stride >= 1
  {
    var s := if pc.Some? then Or(pc.value.stride, 1) else 1;
    if s < 1 then 1 else s
  }

  function FullNames(ph: Placeholder): seq<string> {
    match ph
    case Season => ["Winter", "Spring", "Summer", "Autumn"]
    case Month => ["January", "February", "March", "April", "May", "June", "July", "August", "September",
                   "October", "November", "December"]
    case Weekday => ["Monday", "Tuesday", "Wednesday", "Thursday", "Friday", "Saturday", "Sunday"]
    case Daypart => ["Night", "Morning", "Afternoon", "Evening"]
    case _ => []
  }

  /** Values outside the list take its first or last name. */
  function NameFor(ph: Placeholder, value: int, abbrev: bool): string {
    var names := FullNames(ph);
    if names == [] then Numerals.Format(value, 0)
    else
      var word := names[if value < 1 then 0 else if value > |names| then |names| - 1 else value - 1];
      if abbrev && |word| > 3 then word[..3] else word
  }

  function LowerChar(c: char): char { if 'A' <= c <= 'Z' then c + ('a' - 'A') else c }

  function UpperChar(c: char): char { if 'a' <= c <= 'z' then c - ('a' - 'A') else c }

  function ApplyCase(s: string, letters: Case): string {
    match letters
    case Pascal => s
    case Lower => seq(|s|, i requires 0 <= i < |s| => LowerChar(s[i]))
    case Upper => seq(|s|, i requires 0 <= i < |s| => UpperChar(s[i]))
  }

  predicate IsNumeric(ph: Placeholder, pc: Option<PartConfig>) {
    Or(FormatOf(pc).numeric, NumericByDefault(ph))
  }

  function PadOf(pc: Option<PartConfig>): nat {
    Or(FormatOf(pc).pad, 0)
  }

  /** The widest run-time width the formatter takes; it panics on a wider one. */
  const MAX_WIDTH := 0xFFFF

  predicate TooWide(ph: Placeholder, pc: Option<PartConfig>) {
    IsNumeric(ph, pc) && PadOf(pc) > MAX_WIDTH
  }

  /** The text of a placeholder; None where computing its range or formatting its number panics. */
  function RenderPlaceholder(ph: Placeholder, t: Timestamp, hemisphere: Hemisphere, pc: Option<PartConfig>)
    : Option<string>
    requires IsTimestamp(t)
  {
    var raw, stride, fmt := Projected(ph, t, hemisphere), StrideOf(pc), FormatOf(pc);
    if FieldRange(ph, t).None? || TooWide(ph, pc) then None
    else
      var (origin, cycleEnd) := FieldRange(ph, t).value;
      var start := BlockStart(raw, origin, stride);
      var numeric, pad := IsNumeric(ph, pc), PadOf(pc);
      if stride > 1 && numeric then
        var end := BlockEnd(start, stride, Or(fmt.inclusiveEnd, false), cycleEnd);
        Some(match Or(fmt.bound, Start)
             case Start => Numerals.Format(start, pad)
             case End => Numerals.Format(end, pad)
             case Range => Numerals.Format(start, pad) + Or(fmt.rangeSep, "_") + Numerals.Format(end, pad))
      else
        var value := if stride > 1 then start else raw;
        Some(if numeric then Numerals.Format(value, pad)
             else ApplyCase(NameFor(ph, value, Or(fmt.abbrev, false)), Or(fmt.letters, Pascal)))
  }

  // -- Rendering a band -------------------------------------------------------

  function ConfigOf(ph: Placeholder, parts: map<string, PartConfig>): Option<PartConfig> {
    var name := PlaceholderName(ph);
    if name in parts then Some(parts[name]) else None
  }

  function PartText(p: Part, t: Timestamp, hemisphere: Hemisphere, parts: map<string, PartConfig>): Option<string>
    requires IsTimestamp(t)
  {
    match p
    case Literal(text) => Some(text)
    case Field(ph) => RenderPlaceholder(ph, t, hemisphere, ConfigOf(ph, parts))
  }

  function LevelText(level: seq<Part>, t: Timestamp, hemisphere: Hemisphere, parts: map<string, PartConfig>)
    : Option<string>
    requires IsTimestamp(t)
  {
    if level == [] then Some([])
    else
      var last := |level| - 1;
      match (LevelText(level[..last], t, hemisphere, parts), PartText(level[last], t, hemisphere, parts))
      case (Some(before), Some(text)) => Some(before + text)
      case _ => None
  }

  function LevelLabels(levels: seq<seq<Part>>, t: Timestamp, hemisphere: Hemisphere, parts: map<string, PartConfig>)
    : (r: Option<seq<string>>)
    requires IsTimestamp(t)
    ensures r.Some? ==> |r.value| == |levels|
  {
    if levels == [] then Some([])
    else
      var last := |levels| - 1;
      match (LevelLabels(levels[..last], t, hemisphere, parts), LevelText(levels[last], t, hemisphere, parts))
      case (Some(before), Some(text)) => Some(before + [Tags.Slug(text)])
      case _ => None
  }

  /** What a computation yields, when it does not panic. */
  datatype Outcome<+T> = Panics | Done(result: T)

  function Shifted(band: Band, t: Timestamp): (s: Option<Timestamp>)
    requires IsTimestamp(t) && (band.offset.Some? ==> IsOffset(band.offset.value))
    ensures s.Some? ==> IsTimestamp(s.value)
  {
    if band.offset.Some? then Shift(band.offset.value, t) else Some(t)
  }

  /** The labels of a band for `t`, relative to the root; None on a malformed template. */
  function BandLabels(band: Band, t: Timestamp, hemisphere: Hemisphere): Outcome<Option<seq<string>>>
    requires IsTimestamp(t) && (band.offset.Some? ==> IsOffset(band.offset.value))
  {
    var shifted := Shifted(band, t);
    if shifted.None? then Panics
    else match Parsed(band.template)
      case Err(_) => Done(None)
      case Ok(levels) =>
        match LevelLabels(levels, shifted.value, hemisphere, band.parts)
        case None => Panics
        case Some(labels) => Done(Some(labels))
  }

  method RenderLevel(level: seq<Part>, t: Timestamp, hemisphere: Hemisphere, parts: map<string, PartConfig>)
    returns (r: Option<string>)
    requires IsTimestamp(t)
    ensures r == LevelText(level, t, hemisphere, parts)
  {
    var rendered := "";
    for i := 0 to |level|
      invariant LevelText(level[..i], t, hemisphere, parts) == Some(rendered)
    {
      assert level[..i + 1][..i] == level[..i];
      var text := PartText(level[i], t, hemisphere, parts);
      if text.None? {
        LevelPanics(level, i + 1, t, hemisphere, parts);
        return None;
      }
      rendered := rendered + text.value;
    }
    assert level[..|level|] == level;
    r := Some(rendered);
  }

  lemma {:induction false} LevelPanics(
      level: seq<Part>, n: nat, t: Timestamp, hemisphere: Hemisphere, parts: map<string, PartConfig>)
    requires n <= |level| && IsTimestamp(t) && LevelText(level[..n], t, hemisphere, parts).None?
    ensures LevelText(level, t, hemisphere, parts).None?
  {
    if n == |level| {
      assert level[..n] == level;
    } else {
      var shorter := level[..|level| - 1];
      assert shorter[..n] == level[..n];
      LevelPanics(shorter, n, t, hemisphere, parts);
    }
  }

  lemma LabelsOfOneMore(
      levels: seq<seq<Part>>, i: nat, t: Timestamp, hemisphere: Hemisphere, parts: map<string, PartConfig>)
    requires i < |levels| && IsTimestamp(t)
    ensures LevelLabels(levels[..i + 1], t, hemisphere, parts) ==
      match (LevelLabels(levels[..i], t, hemisphere, parts), LevelText(levels[i], t, hemisphere, parts))
      case (Some(before), Some(text)) => Some(before + [Tags.Slug(text)])
      case _ => None
  {
    assert levels[..i + 1][..i] == levels[..i];
  }

  method RenderLevels(levels: seq<seq<Part>>, t: Timestamp, hemisphere: Hemisphere, parts: map<string, PartConfig>)
    returns (r: Option<seq<string>>)
    requires IsTimestamp(t)
    ensures r == LevelLabels(levels, t, hemisphere, parts)
  {
    var labels: seq<string> := [];
    for i := 0 to |levels|
      invariant LevelLabels(levels[..i], t, hemisphere, parts) == Some(labels)
    {
      LabelsOfOneMore(levels, i, t, hemisphere, parts);
      var text := RenderLevel(levels[i], t, hemisphere, parts);
      if text.None? {
        LevelsPanic(levels, i + 1, t, hemisphere, parts);
        return None;
      }
      var slug := Tags.SlugifyLabel(text.value);
      labels := labels + [slug];
    }
    assert levels[..|levels|] == levels;
    r := Some(labels);
  }

  /** Shift, parse, render every level into a label, and join them with dots. */
  method Render(band: Band, t: Timestamp, hemisphere: Hemisphere) returns (r: Outcome<Option<string>>)
    requires IsTimestamp(t) && (band.offset.Some? ==> IsOffset(band.offset.value))
    ensures r == match BandLabels(band, t, hemisphere)
                 case Panics => Panics
                 case Done(None) => Done(None)
                 case Done(Some(labels)) => Done(Some(Text.Join(labels, '.')))
  {
    var shifted := Some(t);
    if band.offset.Some? { shifted := Apply(band.offset.value, t); }
    if shifted.None? { return Panics; }
    var template := ParseTemplate(band.template);
    if template.Err? { return Done(None); }
    var labels := RenderLevels(template.value, shifted.value, hemisphere, band.parts);
    r := if labels.None? then Panics else Done(Some(Text.Join(labels.value, '.')));
  }

  lemma {:induction false} LevelsPanic(
      levels: seq<seq<Part>>, n: nat, t: Timestamp, hemisphere: Hemisphere, parts: map<string, PartConfig>)
    requires n <= |levels| && IsTimestamp(t) && LevelLabels(levels[..n], t, hemisphere, parts).None?
    ensures LevelLabels(levels, t, hemisphere, parts).None?
  {
    if n == |levels| {
      assert levels[..n] == levels;
    } else {
      var shorter := levels[..|levels| - 1];
      assert shorter[..n] == levels[..n];
      LevelsPanic(shorter, n, t, hemisphere, parts);
    }
  }

  // -- Resolution -------------------------------------------------------------

  /** Half-open: from the first day on, before the last. */
  predicate Contains(band: Band, t: Timestamp) {
    (band.since.Some? ==> !Calendar.Before(t.date, band.since.value))
    && (band.until.Some? ==> Calendar.Before(t.date, band.until.value))
  }

  /** A band holds the days numbered from its first one up to, but not with, its last one, so two bands
      that meet split the days of the whole between them. */
  lemma BandsAreHalfOpen(band: Band, t: Timestamp, since: Calendar.Date, meet: Calendar.Date, until: Calendar.Date)
    requires Calendar.IsDate(t.date) && Calendar.IsDate(since) && Calendar.IsDate(meet) && Calendar.IsDate(until)
    requires Calendar.DayNumber(since) <= Calendar.DayNumber(meet) <= Calendar.DayNumber(until)
    ensures Contains(band.(since := Some(since), until := Some(until)), t)
      <==> Calendar.DayNumber(since) <= Calendar.DayNumber(t.date) < Calendar.DayNumber(until)
    ensures Contains(band.(since := None, until := Some(until)), t)
      <==> Calendar.DayNumber(t.date) < Calendar.DayNumber(until)
    ensures Contains(band.(since := Some(since), until := None), t)
      <==> Calendar.DayNumber(since) <= Calendar.DayNumber(t.date)
    ensures Contains(band.(since := None, until := None), t)
    ensures var first := band.(since := Some(since), until := Some(meet));
            var second := band.(since := Some(meet), until := Some(until));
      && (Contains(first, t) || Contains(second, t) <==> Contains(band.(since := Some(since), until := Some(until)), t))
      && !(Contains(first, t) && Contains(second, t))
  {
    Calendar.DayNumberOrders(t.date, since);
    Calendar.DayNumberOrders(t.date, meet);
    Calendar.DayNumberOrders(t.date, until);
  }

  predicate Covers(band: Band, t: Timestamp) {
    band.enabled && Contains(band, t)
  }

  /** The first covering band. */
  ghost predicate Decides(bands: seq<Band>, t: Timestamp, i: nat) {
    i < |bands| && Covers(bands[i], t) && forall j :: 0 <= j < i ==> !Covers(bands[j], t)
  }

  /** Bands carry non-negative offsets, which validation sees to. */
  predicate OffsetsOk(bands: seq<Band>) {
    forall i :: 0 <= i < |bands| && bands[i].offset.Some? ==> IsOffset(bands[i].offset.value)
  }

  function Under(rootTag: string, relative: string): Tags.TagPath {
    Tags.TagPath(rootTag + "." + relative)
  }

  /** The tag a band decides on. */
  function BandTag(config: Config, band: Band, t: Timestamp): Outcome<Option<Tags.TagPath>>
    requires IsTimestamp(t) && (band.offset.Some? ==> IsOffset(band.offset.value))
  {
    match BandLabels(band, t, config.hemisphere)
    case Panics => Panics
    case Done(None) => Done(None)
    case Done(Some(labels)) => Done(Some(Under(config.rootTag, Text.Join(labels, '.'))))
  }

  /** Render the band and hang the result under the root. */
  method RenderTag(config: Config, band: Band, t: Timestamp) returns (r: Outcome<Option<Tags.TagPath>>)
    requires IsTimestamp(t) && (band.offset.Some? ==> IsOffset(band.offset.value))
    ensures r == BandTag(config, band, t)
  {
    var rendered := Render(band, t, config.hemisphere);
    match rendered
    case Panics => r := Panics;
    case Done(None) => r := Done(None);
    case Done(Some(relative)) => r := Done(Some(Under(config.rootTag, relative)));
  }

  function CatchAllTag(config: Config): Option<Tags.TagPath> {
    if config.catchAll.Some? then Some(Under(config.rootTag, config.catchAll.value.name)) else None
  }

  /** What resolving means. */
  ghost predicate Resolution(config: Config, captured: Option<Timestamp>, r: Outcome<Option<Tags.TagPath>>)
    requires OffsetsOk(config.bands) && (captured.Some? ==> IsTimestamp(captured.value))
  {
    match captured
    case None =>
      r == Done(if config.catchAll.Some? && config.catchAll.value.includeUndated then CatchAllTag(config) else None)
    case Some(t) =>
      && (forall i: nat :: Decides(config.bands, t, i) ==> r == BandTag(config, config.bands[i], t))
      && ((forall i :: 0 <= i < |config.bands| ==> !Covers(config.bands[i], t)) ==> r == Done(CatchAllTag(config)))
  }

  /** The tag of a timestamp, if any: the first enabled covering band decides, else the catch-all;
      undated pictures go to the catch-all only when it takes them. */
  method Resolve(config: Config, captured: Option<Timestamp>) returns (r: Outcome<Option<Tags.TagPath>>)
    requires OffsetsOk(config.bands) && (captured.Some? ==> IsTimestamp(captured.value))
    ensures Resolution(config, captured, r)
  {
    if captured.None? {
      if config.catchAll.Some? && config.catchAll.value.includeUndated { return Done(CatchAllTag(config)); }
      return Done(None);
    }
    var t := captured.value;
    for i := 0 to |config.bands|
      invariant forall j :: 0 <= j < i ==> !Covers(config.bands[j], t)
    {
      if config.bands[i].enabled && Contains(config.bands[i], t) {
        r := RenderTag(config, config.bands[i], t);
        return;
      }
    }
    r := Done(CatchAllTag(config));
  }
}
