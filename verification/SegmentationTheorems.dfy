/** Validating a segmentation config, and what every tag resolved from a valid one is. */
module SegmentationTheorems {
  import opened Wrappers
  import opened Segments
  import opened Templates
  import opened Offsets
  import opened Segmentation
  import Calendar
  import Numerals
  import Tags
  import Text

  // -- Validation -------------------------------------------------------------

  /** The options a placeholder's kind and stride allow. */
  predicate ValidPart(ph: Placeholder, pc: PartConfig) {
    && (pc.stride.Some? ==> pc.stride.value >= 1)
    && (pc.format.Some? ==>
          var fmt := pc.format.value;
          && !(fmt.numeric == Some(false) && !HasNamedForm(ph))
          && !(fmt.abbrev == Some(true) && !HasNamedForm(ph))
          && (fmt.pad.Some? ==> fmt.pad.value >= 1)
          && (((fmt.bound.Some? && fmt.bound != Some(Start)) || fmt.rangeSep.Some?) ==> Or(pc.stride, 0) > 1))
  }

  predicate Uses(levels: seq<seq<Part>>, ph: Placeholder) {
    exists i, j :: 0 <= i < |levels| && 0 <= j < |levels[i]| && levels[i][j] == Field(ph)
  }

  predicate ValidBand(band: Band) {
    && (band.since.Some? && band.until.Some? ==> Calendar.Before(band.since.value, band.until.value))
    && Parsed(band.template).Ok?
    && (forall key :: key in band.parts ==>
          var ph := NamedPlaceholder(key);
          ph.Some? && Uses(Parsed(band.template).value, ph.value) && ValidPart(ph.value, band.parts[key]))
    && (band.offset.Some? ==> IsOffset(band.offset.value))
  }

  predicate ValidConfig(config: Config) {
    && config.version == 1
    && Tags.Parse(config.rootTag, false).Ok?
    && (config.catchAll.Some? ==>
          '.' !in config.catchAll.value.name && Tags.Parse(config.catchAll.value.name, false).Ok?)
    && forall i :: 0 <= i < |config.bands| ==> ValidBand(config.bands[i])
  }

  datatype ConfigError = BadVersion | BadRoot(e: Tags.ParseError) | BadCatchAll | BadBand(index: nat)

  method Placeholders(levels: seq<seq<Part>>) returns (present: seq<Placeholder>)
    ensures forall ph :: ph in present <==> Uses(levels, ph)
  {
    present := [];
    for i := 0 to |levels|
      invariant forall ph :: ph in present <==> Uses(levels[..i], ph)
    {
      ghost var before := present;
      for j := 0 to |levels[i]|
        invariant forall ph :: ph in present <==> ph in before || Field(ph) in levels[i][..j]
      {
        assert levels[i][..j + 1] == levels[i][..j] + [levels[i][j]];
        if levels[i][j].Field? { present := present + [levels[i][j].ph]; }
      }
      assert levels[i][..|levels[i]|] == levels[i];
      forall ph ensures Uses(levels[..i + 1], ph) <==> Uses(levels[..i], ph) || Field(ph) in levels[i] {
        UsesOneMore(levels, i, ph);
      }
    }
    assert levels[..|levels|] == levels;
  }

  lemma UsesOneMore(levels: seq<seq<Part>>, i: nat, ph: Placeholder)
    requires i < |levels|
    ensures Uses(levels[..i + 1], ph) <==> Uses(levels[..i], ph) || Field(ph) in levels[i]
  {}

  method ValidateBand(band: Band) returns (ok: bool)
    ensures ok <==> ValidBand(band)
  {
    if band.since.Some? && band.until.Some? && !Calendar.Before(band.since.value, band.until.value) { return false; }
    var template := ParseTemplate(band.template);
    if template.Err? { return false; }
    var present := Placeholders(template.value);
    var keys := band.parts.Keys;
    while keys != {}
      invariant keys <= band.parts.Keys
      invariant forall key :: key in band.parts && key !in keys ==>
        var ph := NamedPlaceholder(key);
        ph.Some? && Uses(template.value, ph.value) && ValidPart(ph.value, band.parts[key])
      decreases |keys|
    {
      var key :| key in keys;
      var ph := NamedPlaceholder(key);
      if ph.None? || ph.value !in present || !ValidPart(ph.value, band.parts[key]) { return false; }
      keys := keys - {key};
    }
    ok := band.offset.Some? ==> IsOffset(band.offset.value);
  }

  /** The first thing wrong with a config, bands last and in order. */
  method Validate(config: Config) returns (r: Option<ConfigError>)
    ensures r.None? <==> ValidConfig(config)
    ensures r.Some? && r.value.BadBand? ==>
      var i := r.value.index;
      i < |config.bands| && !ValidBand(config.bands[i]) && forall j :: 0 <= j < i ==> ValidBand(config.bands[j])
  {
    if config.version != 1 { return Some(BadVersion); }
    var root := Tags.Parse(config.rootTag, false);
    if root.Err? { return Some(BadRoot(root.error)); }
    if config.catchAll.Some? {
      var name := config.catchAll.value.name;
      if '.' in name || Tags.Parse(name, false).Err? { return Some(BadCatchAll); }
    }
    for i := 0 to |config.bands|
      invariant forall j :: 0 <= j < i ==> ValidBand(config.bands[j])
    {
      var ok := ValidateBand(config.bands[i]);
      if !ok { return Some(BadBand(i)); }
    }
    r := None;
  }

  // -- Resolved tags ----------------------------------------------------------

  lemma {:induction false} LabelsAreSlugs(
      levels: seq<seq<Part>>, t: Timestamp, hemisphere: Hemisphere, parts: map<string, PartConfig>)
    requires IsTimestamp(t) && LevelLabels(levels, t, hemisphere, parts).Some?
    ensures var labels := LevelLabels(levels, t, hemisphere, parts).value;
            forall i :: 0 <= i < |labels| ==> Tags.IsLabel(labels[i]) && '.' !in labels[i]
  {
    if levels != [] {
      var last := |levels| - 1;
      LabelsAreSlugs(levels[..last], t, hemisphere, parts);
      Tags.SlugIsLabel(LevelText(levels[last], t, hemisphere, parts).value);
    }
  }

  /** Labels hung under a root string. */
  lemma UnderLabels(rootTag: string, labels: seq<string>)
    requires labels != [] && Text.Free(labels, '.')
    ensures var p := Under(rootTag, Text.Join(labels, '.')); var root := Tags.TagPath(rootTag);
            Tags.Labels(p) == Tags.Labels(root) + labels
            && Tags.IsAncestorOf(root, p) && Tags.Depth(p) == Tags.Depth(root) + |labels|
  {
    var relative := Text.Join(labels, '.');
    Text.SplitJoin(labels, '.');
    assert rootTag + "." + relative == rootTag + ['.'] + relative;
    Text.SplitConcat(rootTag, relative, '.');
  }

  lemma ValidIsTrimmed(raw: string)
    requires Tags.Parse(raw, false).Ok?
    ensures Tags.IsValid(Tags.TagPath(raw)) <==> Tags.Trim(raw) == raw
  {
    Tags.ParseExact(raw, false);
    if Tags.IsValid(Tags.TagPath(raw)) { Tags.ParseIsIdempotent(Tags.TagPath(raw)); }
  }

  ghost predicate IsGoodTag(p: Tags.TagPath, rootTag: string, levels: nat) {
    var root := Tags.TagPath(rootTag);
    Tags.Parse(p.ltree, false) == Ok(p) && Tags.IsAncestorOf(root, p) && Tags.Depth(p) == Tags.Depth(root) + levels
  }

  /** A path of valid labels under a valid, unreserved root. */
  lemma GoodUnderRootExactly(rootTag: string, labels: seq<string>)
    requires Tags.Parse(rootTag, false).Ok? && labels != [] && Text.Free(labels, '.')
    ensures IsGoodTag(Under(rootTag, Text.Join(labels, '.')), rootTag, |labels|)
      <==> Tags.Trim(rootTag) == rootTag && Tags.AreLabels(labels)
  {
    var root, p := Tags.TagPath(rootTag), Under(rootTag, Text.Join(labels, '.'));
    UnderLabels(rootTag, labels);
    ValidIsTrimmed(rootTag);
    Tags.ParseExact(rootTag, false);
    Tags.ParseExact(p.ltree, false);
    SplitValid(Tags.Labels(root), labels);
    if Tags.IsValid(p) {
      Tags.ParseIsIdempotent(p);
    } else if Tags.Parse(p.ltree, false) == Ok(p) {
      assert false;
    }
  }

  lemma SplitValid(a: seq<string>, b: seq<string>)
    requires a != [] && b != []
    ensures Tags.AreLabels(a + b) <==> Tags.AreLabels(a) && Tags.AreLabels(b)
  {
    if Tags.AreLabels(a + b) {
      forall i | 0 <= i < |a| ensures Tags.IsLabel(a[i]) { assert (a + b)[i] == a[i]; }
      forall i | 0 <= i < |b| ensures Tags.IsLabel(b[i]) { assert (a + b)[|a| + i] == b[i]; }
    }
  }

  /** A band of a valid config that renders always yields a tag, with one label per template level;
      it is a valid, unreserved path strictly under the root exactly when the root is stored without
      surrounding whitespace (validation trims it, resolution does not). */
  lemma BandTagIsGoodExactly(config: Config, i: nat, t: Timestamp)
    requires ValidConfig(config) && i < |config.bands| && IsTimestamp(t)
    requires BandTag(config, config.bands[i], t).Done?
    ensures var tag := BandTag(config, config.bands[i], t).result;
            var depth := |Parsed(config.bands[i].template).value|;
            tag.Some? && (IsGoodTag(tag.value, config.rootTag, depth) <==> Tags.Trim(config.rootTag) == config.rootTag)
  {
    var band := config.bands[i];
    var shifted := Shifted(band, t).value;
    var levels := Parsed(band.template).value;
    AcceptedTemplate(band.template);
    LabelsAreSlugs(levels, shifted, config.hemisphere, band.parts);
    GoodUnderRootExactly(config.rootTag, LevelLabels(levels, shifted, config.hemisphere, band.parts).value);
  }

  /** The catch-all tag is one level under the root, and good exactly when both the root and its own
      name are stored trimmed. */
  lemma CatchAllIsGoodExactly(config: Config)
    requires ValidConfig(config) && config.catchAll.Some?
    ensures var name := config.catchAll.value.name;
            IsGoodTag(CatchAllTag(config).value, config.rootTag, 1)
            <==> Tags.Trim(config.rootTag) == config.rootTag && Tags.Trim(name) == name
  {
    var name := config.catchAll.value.name;
    Text.SplitWhole(name, '.');
    ValidIsTrimmed(name);
    assert Text.Join([name], '.') == name;
    GoodUnderRootExactly(config.rootTag, [name]);
  }

  /** A config that passes validation and yields an invalid tag: its root tag has a leading space. */
  lemma UntrimmedRootGivesBadTag()
    ensures var config := Config(1, " A", North, Some(CatchAll("B", true)), []);
            var tag := Tags.TagPath(" A.B");
            ValidConfig(config) && CatchAllTag(config) == Some(tag) && !Tags.IsValid(tag)
  {
    var config := Config(1, " A", North, Some(CatchAll("B", true)), []);
    assert Tags.TrimStart(" A") == "A" by { assert " A"[1..] == "A"; }
    assert Tags.Trim(" A") == "A" && Tags.Trim("B") == "B";
    Text.SplitWhole("A", '.');
    Text.SplitWhole("B", '.');
    Text.SplitWhole(" A", '.');
    Tags.ParseExact(" A", false);
    Tags.ParseExact("B", false);
    assert " A" + "." + "B" == " A.B";
    UnderLabels(" A", ["B"]);
    assert Text.Join(["B"], '.') == "B";
    assert Tags.Labels(Tags.TagPath(" A.B")) == [" A"] + ["B"];
    assert ([" A"] + ["B"])[0] == " A" && " A"[0] == ' ' && !Tags.IsLabelChar(' ');
  }

  /** When some band covers a timestamp, one of them is first. */
  lemma {:induction false} FirstCovering(bands: seq<Band>, t: Timestamp, i: nat) returns (first: nat)
    requires i < |bands| && Covers(bands[i], t)
    ensures Decides(bands, t, first)
    decreases i
  {
    if Decides(bands, t, i) { return i; }
    var j: nat :| j < i && Covers(bands[j], t);
    first := FirstCovering(bands, t, j);
  }

  /** Over every timestamp, or none: what a valid config with a trimmed root and catch-all name
      resolves to is settled, and a tag it yields is valid, unreserved and strictly under the root,
      as deep as the root plus the levels of the first covering band, or plus one for the catch-all. */
  lemma ResolvedTagsAreGood(config: Config, captured: Option<Timestamp>, r: Outcome<Option<Tags.TagPath>>)
    requires ValidConfig(config) && (captured.Some? ==> IsTimestamp(captured.value))
    requires Tags.Trim(config.rootTag) == config.rootTag
    requires config.catchAll.Some? ==> Tags.Trim(config.catchAll.value.name) == config.catchAll.value.name
    requires Resolution(config, captured, r)
    ensures forall other :: Resolution(config, captured, other) ==> other == r
    ensures r.Done? && r.result.Some? ==>
      || (captured.Some? && exists i: nat ::
            (Decides(config.bands, captured.value, i)
             && IsGoodTag(r.result.value, config.rootTag, |Parsed(config.bands[i].template).value|)))
      || (config.catchAll.Some? && IsGoodTag(r.result.value, config.rootTag, 1)
          && (captured.Some? ==> forall i :: 0 <= i < |config.bands| ==> !Covers(config.bands[i], captured.value)))
  {
    if config.catchAll.Some? { CatchAllIsGoodExactly(config); }
    if captured.Some? && exists i :: 0 <= i < |config.bands| && Covers(config.bands[i], captured.value) {
      var i :| 0 <= i < |config.bands| && Covers(config.bands[i], captured.value);
      var first := FirstCovering(config.bands, captured.value, i);
      assert r == BandTag(config, config.bands[first], captured.value);
      if r.Done? { BandTagIsGoodExactly(config, first, captured.value); }
    }
  }

  // -- When rendering panics --------------------------------------------------

  /** A placeholder without a range at `t`, or a number padded beyond what the formatter takes. */
  predicate CannotRender(p: Part, t: Timestamp, parts: map<string, PartConfig>)
    requires IsTimestamp(t)
  {
    p.Field? && (FieldRange(p.ph, t).None? || TooWide(p.ph, ConfigOf(p.ph, parts)))
  }

  predicate Panicky(level: seq<Part>, t: Timestamp, parts: map<string, PartConfig>)
    requires IsTimestamp(t)
  {
    exists j :: 0 <= j < |level| && CannotRender(level[j], t, parts)
  }

  lemma {:induction false} LevelPanicsExactly(
      level: seq<Part>, t: Timestamp, hemisphere: Hemisphere, parts: map<string, PartConfig>)
    requires IsTimestamp(t)
    ensures LevelText(level, t, hemisphere, parts).None? <==> Panicky(level, t, parts)
  {
    if level != [] {
      var last := |level| - 1;
      LevelPanicsExactly(level[..last], t, hemisphere, parts);
      if Panicky(level[..last], t, parts) {
        var j :| 0 <= j < last && CannotRender(level[..last][j], t, parts);
        assert CannotRender(level[j], t, parts);
      }
      if Panicky(level, t, parts) {
        var j :| 0 <= j < |level| && CannotRender(level[j], t, parts);
        if j < last { assert CannotRender(level[..last][j], t, parts); }
      }
    }
  }

  lemma {:induction false} LevelsPanicExactly(
      levels: seq<seq<Part>>, t: Timestamp, hemisphere: Hemisphere, parts: map<string, PartConfig>)
    requires IsTimestamp(t)
    ensures LevelLabels(levels, t, hemisphere, parts).None?
      <==> exists i :: 0 <= i < |levels| && Panicky(levels[i], t, parts)
  {
    if levels != [] {
      var last := |levels| - 1;
      LevelsPanicExactly(levels[..last], t, hemisphere, parts);
      LevelPanicsExactly(levels[last], t, hemisphere, parts);
      if exists i :: 0 <= i < last && Panicky(levels[..last][i], t, parts) {
        var i :| 0 <= i < last && Panicky(levels[..last][i], t, parts);
        assert Panicky(levels[i], t, parts);
      }
      if exists i :: 0 <= i < |levels| && Panicky(levels[i], t, parts) {
        var i :| 0 <= i < |levels| && Panicky(levels[i], t, parts);
        if i < last { assert Panicky(levels[..last][i], t, parts); }
      }
    }
  }

  /** No number of the band is configured wider than the formatter takes. */
  predicate PadsFit(band: Band) {
    forall key :: key in band.parts && NamedPlaceholder(key).Some? ==>
      !TooWide(NamedPlaceholder(key).value, Some(band.parts[key]))
  }

  /** In a valid band the configured placeholders are those of the template, so the pads of its
      template fit exactly when the configured ones do. */
  lemma UsedPadsFitExactly(band: Band)
    requires ValidBand(band)
    ensures PadsFit(band)
      <==> forall ph :: Uses(Parsed(band.template).value, ph) ==> !TooWide(ph, ConfigOf(ph, band.parts))
  {
    forall key | key in band.parts && NamedPlaceholder(key).Some?
      ensures ConfigOf(NamedPlaceholder(key).value, band.parts) == Some(band.parts[key])
    {
      NamesAreUnique(key, NamedPlaceholder(key).value);
    }
    forall ph: Placeholder ensures NamedPlaceholder(PlaceholderName(ph)) == Some(ph) {
      NamesAreUnique(PlaceholderName(ph), ph);
    }
  }

  lemma UsedParts(levels: seq<seq<Part>>, t: Timestamp, parts: map<string, PartConfig>)
    requires IsTimestamp(t)
    ensures (exists i :: 0 <= i < |levels| && Panicky(levels[i], t, parts))
      <==> exists ph :: Uses(levels, ph) && CannotRender(Field(ph), t, parts)
  {
    if exists i :: 0 <= i < |levels| && Panicky(levels[i], t, parts) {
      var i :| 0 <= i < |levels| && Panicky(levels[i], t, parts);
      var j :| 0 <= j < |levels[i]| && CannotRender(levels[i][j], t, parts);
      assert Uses(levels, levels[i][j].ph) && CannotRender(Field(levels[i][j].ph), t, parts);
    }
    if exists ph :: Uses(levels, ph) && CannotRender(Field(ph), t, parts) {
      var ph :| Uses(levels, ph) && CannotRender(Field(ph), t, parts);
      var i, j :| 0 <= i < |levels| && 0 <= j < |levels[i]| && levels[i][j] == Field(ph);
      assert Panicky(levels[i], t, parts);
    }
  }

  /** A band of a valid config renders a timestamp exactly when its offset can be applied, every
      placeholder of its template has a range there, and every configured padding fits. */
  lemma BandRendersExactly(config: Config, i: nat, t: Timestamp)
    requires ValidConfig(config) && i < |config.bands| && IsTimestamp(t)
    ensures var band := config.bands[i];
            BandTag(config, band, t).Done? <==>
              PadsFit(band) && Shifted(band, t).Some?
              && forall ph :: Uses(Parsed(band.template).value, ph) ==> FieldRange(ph, Shifted(band, t).value).Some?
  {
    var band := config.bands[i];
    var levels := Parsed(band.template).value;
    if Shifted(band, t).Some? {
      var s := Shifted(band, t).value;
      LevelsPanicExactly(levels, s, config.hemisphere, band.parts);
      UsedParts(levels, s, band.parts);
      UsedPadsFitExactly(band);
    }
  }

  /** Away from the first and the last representable year, a band of a valid config whose offset has
      been applied renders exactly when every configured padding fits. */
  lemma InnerYearsRenderExactly(config: Config, i: nat, t: Timestamp)
    requires ValidConfig(config) && i < |config.bands| && IsTimestamp(t)
    requires var s := Shifted(config.bands[i], t); s.Some? && MIN_YEAR < s.value.date.year < MAX_YEAR
    ensures BandTag(config, config.bands[i], t).Done? <==> PadsFit(config.bands[i])
  {
    var shifted := Shifted(config.bands[i], t).value;
    BandRendersExactly(config, i, t);
    forall ph ensures FieldRange(ph, shifted).Some? {
      RangePanicsExactly(ph, shifted);
      IsoYearIsNear(shifted.date);
    }
  }

  /** A valid config that renders no timestamp at all: one placeholder, padded one character beyond
      what the formatter takes. */
  lemma WidePadAlwaysPanics(t: Timestamp)
    requires IsTimestamp(t)
    ensures ValidConfig(WIDE_CONFIG) && BandTag(WIDE_CONFIG, WIDE_BAND, t) == Panics
  {
    WideConfigIsValid();
    assert TooWide(NamedPlaceholder("year").value, Some(WIDE_BAND.parts["year"]));
    assert WIDE_CONFIG.bands[0] == WIDE_BAND;
    BandRendersExactly(WIDE_CONFIG, 0, t);
  }

  const WIDE_BAND := Band(None, None, true, "{year}",
                          map["year" := PartConfig(None, Some(NO_FORMAT.(pad := Some(MAX_WIDTH + 1))))], None)

  const WIDE_CONFIG := Config(1, "A", North, None, [WIDE_BAND])

  lemma WideConfigIsValid()
    ensures ValidConfig(WIDE_CONFIG) && NamedPlaceholder("year") == Some(Year)
  {
    NamesAreUnique("year", Year);
    WideBandIsValid();
    LetterIsRoot();
  }

  lemma LetterIsRoot()
    ensures Tags.Parse("A", false).Ok?
  {
    assert Tags.Trim("A") == "A";
    Text.SplitWhole("A", '.');
    Tags.ParseExact("A", false);
  }

  lemma WideBandIsValid()
    ensures ValidBand(WIDE_BAND)
  {
    YearTemplate();
    NamesAreUnique("year", Year);
    assert Parsed(WIDE_BAND.template).value[0][0] == Field(Year);
  }

  lemma YearTemplate()
    ensures Parsed("{year}") == Ok([[Field(Year)]])
  {
    var s := "{year}";
    Text.SplitWhole(s, '.');
    YearLevel();
    assert PartHasContent([Field(Year)][0]) && HasContent([Field(Year)]);
    assert [s][..0] == [];
    assert ParseLevels(NamedPlaceholder, [s]) == Ok([] + [[Field(Year)]]);
    assert [] + [[Field(Year)]] == [[Field(Year)]];
  }

  lemma YearLevel()
    ensures ParseFrom(NamedPlaceholder, "{year}", []) == Ok([Field(Year)])
  {
    var s := "{year}";
    NamesAreUnique("year", Year);
    assert s[1..][..4] == "year" && s[1..][4] == '}' && s[1..5] == "year" && s[6..] == [];
    UpToIs(s[1..], '}', 4);
    BraceStep(NamedPlaceholder, s, [], 4);
    assert ParseFrom(NamedPlaceholder, [], []) == Ok([]);
    assert Flush([]) + [Field(Year)] + [] == [Field(Year)];
  }

  // -- Numbers as labels ------------------------------------------------------

  /** A rendered non-negative number is its own label, so labels tell such numbers apart. */
  lemma NumberLabelsAreInjective(a: nat, b: nat, pad: nat)
    ensures Tags.Slug(Numerals.Format(a, pad)) == Numerals.Format(a, pad)
    ensures Tags.Slug(Numerals.Format(a, pad)) == Tags.Slug(Numerals.Format(b, pad)) <==> a == b
  {
    NumberIsSlug(a, pad);
    NumberIsSlug(b, pad);
    if Numerals.Format(a, pad) == Numerals.Format(b, pad) { Numerals.FormatInjective(a, b, pad, pad); }
  }

  lemma NumberIsSlug(n: nat, pad: nat)
    ensures Tags.Slug(Numerals.Format(n, pad)) == Numerals.Format(n, pad)
  {
    Numerals.ReadPadded(n, pad);
    var s := Numerals.Format(n, pad);
    assert Tags.IsSlug(s) by {
      forall i | 0 <= i < |s| ensures Tags.IsLabelChar(s[i]) { assert Numerals.IsDigit(s[i]); }
    }
    Tags.SlugExact(s);
  }

  /** The minus sign does not survive in a label: unpadded numbers share a label exactly when they are
      equal up to sign, so a year before year 0 shares the label of its positive twin. */
  lemma NumberLabelsExact(a: int, b: int)
    ensures Tags.Slug(Numerals.Format(a, 0)) == Tags.Slug(Numerals.Format(b, 0)) <==> a == b || a == -b
  {
    UnsignedLabel(a);
    UnsignedLabel(b);
    var m, n := if a < 0 then -a else a, if b < 0 then -b else b;
    NumberLabelsAreInjective(m, n, 0);
  }

  lemma UnsignedLabel(a: int)
    ensures Tags.Slug(Numerals.Format(a, 0)) == Numerals.Format(if a < 0 then -a else a, 0)
  {
    if a >= 0 {
      NumberIsSlug(a, 0);
    } else {
      var digits := Numerals.Format(-a, 0);
      var s := Numerals.Format(a, 0);
      Numerals.ReadPadded(-a, 0);
      NumberIsSlug(-a, 0);
      assert s == "-" + digits && s[1..] == digits && !Tags.IsLabelChar('-');
      Tags.SqueezeChars(digits, true);
      forall i | 0 <= i < |digits| ensures Tags.IsLabelChar(digits[i]) { assert Numerals.IsDigit(digits[i]); }
      assert Tags.Squeeze(s, false) == "_" + digits;
      assert ("_" + digits)[1..] == digits;
      assert Tags.TrimUnderscoresStart("_" + digits) == Tags.TrimUnderscoresStart(digits) == digits;
    }
  }
}
