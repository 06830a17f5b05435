/** What the text of a placeholder says about the timestamp it was rendered for. */
module PlaceholderTheorems {
  import opened Wrappers
  import opened Segments
  import opened Templates
  import opened Segmentation
  import Numerals
  import Tags
  import SegmentationTheorems

  function BoundOf(pc: Option<PartConfig>): Bound {
    Or(FormatOf(pc).bound, Start)
  }

  // -- Strided numbers --------------------------------------------------------

  /** The last aligned value up to `raw`. */
  ghost predicate OpensBlock(n: int, raw: int, origin: int, stride: int)
    requires stride >= 1
  {
    (n - origin) % stride == 0 && n <= raw < n + stride
  }

  /** The first aligned value after `raw`; or, inclusive, the value before it, but within the cycle. */
  ghost predicate ClosesBlock(n: int, raw: int, origin: int, stride: int, inclusive: bool, cycleEnd: int)
    requires stride >= 1
  {
    if !inclusive then OpensBlock(n - stride, raw, origin, stride)
    else
      raw <= n <= cycleEnd
      && (OpensBlock(n + 1 - stride, raw, origin, stride)
          || (n == cycleEnd && exists m :: OpensBlock(m, raw, origin, stride) && cycleEnd < m + stride - 1))
  }

  lemma StartOpens(raw: int, origin: int, stride: int)
    requires stride >= 1 && raw >= origin
    ensures OpensBlock(BlockStart(raw, origin, stride), raw, origin, stride)
  {
    BlockHoldsExactly(raw, origin, stride);
  }

  lemma EndCloses(raw: int, origin: int, stride: int, inclusive: bool, cycleEnd: int)
    requires stride >= 1 && origin <= raw <= cycleEnd
    ensures var end := BlockEnd(BlockStart(raw, origin, stride), stride, inclusive, cycleEnd);
            ClosesBlock(end, raw, origin, stride, inclusive, cycleEnd)
  {
    var start := BlockStart(raw, origin, stride);
    StartOpens(raw, origin, stride);
    var end := BlockEnd(start, stride, inclusive, cycleEnd);
    if inclusive {
      InclusiveEndExact(raw, origin, stride, cycleEnd);
      if end == start + stride - 1 { assert end + 1 - stride == start; }
    } else {
      assert end - stride == start;
    }
  }

  /** The text of a strided number: the value that opens its block, the one that closes it, or both
      around the separator, each as a padded number; none when the padding is too wide. */
  lemma StridedTextExact(ph: Placeholder, t: Timestamp, hemisphere: Hemisphere, pc: Option<PartConfig>)
    requires IsTimestamp(t) && FieldRange(ph, t).Some? && StrideOf(pc) > 1 && IsNumeric(ph, pc)
    requires var (origin, cycleEnd) := FieldRange(ph, t).value; origin <= Projected(ph, t, hemisphere) <= cycleEnd
    ensures var (origin, cycleEnd) := FieldRange(ph, t).value;
            var raw, stride, pad := Projected(ph, t, hemisphere), StrideOf(pc), PadOf(pc);
            var inclusive, sep := Or(FormatOf(pc).inclusiveEnd, false), Or(FormatOf(pc).rangeSep, "_");
            exists m, n ::
              OpensBlock(m, raw, origin, stride) && ClosesBlock(n, raw, origin, stride, inclusive, cycleEnd)
              && RenderPlaceholder(ph, t, hemisphere, pc) ==
                 if pad > MAX_WIDTH then None
                 else Some(match BoundOf(pc)
                           case Start => Numerals.Format(m, pad)
                           case End => Numerals.Format(n, pad)
                           case Range => Numerals.Format(m, pad) + sep + Numerals.Format(n, pad))
  {
    var (origin, cycleEnd) := FieldRange(ph, t).value;
    var raw, stride := Projected(ph, t, hemisphere), StrideOf(pc);
    var inclusive := Or(FormatOf(pc).inclusiveEnd, false);
    var m := BlockStart(raw, origin, stride);
    var n := BlockEnd(m, stride, inclusive, cycleEnd);
    StartOpens(raw, origin, stride);
    EndCloses(raw, origin, stride, inclusive, cycleEnd);
    assert OpensBlock(m, raw, origin, stride) && ClosesBlock(n, raw, origin, stride, inclusive, cycleEnd);
  }

  // -- One number as a whole level --------------------------------------------

  /** The label of a level that is one placeholder, where rendering it does not panic. */
  function LabelOf(ph: Placeholder, t: Timestamp, hemisphere: Hemisphere, pc: Option<PartConfig>): Option<string>
    requires IsTimestamp(t)
  {
    match RenderPlaceholder(ph, t, hemisphere, pc)
    case Some(text) => Some(Tags.Slug(text))
    case None => None
  }

  /** A number as a placeholder's text, unless its padding is too wide. */
  function NumberOr(value: int, pad: nat): Option<string> {
    if pad > MAX_WIDTH then None else Some(Numerals.Format(value, pad))
  }

  lemma StridedText(ph: Placeholder, t: Timestamp, hemisphere: Hemisphere, pc: Option<PartConfig>)
    requires IsTimestamp(t) && IsNumeric(ph, pc) && StrideOf(pc) > 1 && BoundOf(pc) == Start
    ensures var start := BlockStart(Projected(ph, t, hemisphere), Origin(ph), StrideOf(pc));
            FieldRange(ph, t).Some? ==> RenderPlaceholder(ph, t, hemisphere, pc) == NumberOr(start, PadOf(pc))
  {
    OriginIsFixed(ph, t);
  }

  lemma UnstridedText(ph: Placeholder, t: Timestamp, hemisphere: Hemisphere, pc: Option<PartConfig>)
    requires IsTimestamp(t) && IsNumeric(ph, pc) && StrideOf(pc) == 1
    ensures FieldRange(ph, t).Some? ==>
      RenderPlaceholder(ph, t, hemisphere, pc) == NumberOr(Projected(ph, t, hemisphere), PadOf(pc))
  {}

  lemma NumberText(ph: Placeholder, t: Timestamp, hemisphere: Hemisphere, pc: Option<PartConfig>)
    requires IsTimestamp(t) && IsNumeric(ph, pc) && (StrideOf(pc) > 1 ==> BoundOf(pc) == Start)
    ensures var start := BlockStart(Projected(ph, t, hemisphere), Origin(ph), StrideOf(pc));
            FieldRange(ph, t).Some? ==> RenderPlaceholder(ph, t, hemisphere, pc) == NumberOr(start, PadOf(pc))
  {
    if StrideOf(pc) > 1 {
      StridedText(ph, t, hemisphere, pc);
    } else {
      UnstridedText(ph, t, hemisphere, pc);
      StrideOne(Projected(ph, t, hemisphere), Origin(ph));
    }
  }

  /** A level that is one number, unstrided or printing block starts, sorts timestamps by block: two
      of them get the same label exactly when one aligned block holds both their values. */
  lemma NumberLevelSortsByBlock(
      ph: Placeholder, s: Timestamp, t: Timestamp, hemisphere: Hemisphere, pc: Option<PartConfig>)
    requires IsTimestamp(s) && IsTimestamp(t)
    requires IsNumeric(ph, pc) && (StrideOf(pc) > 1 ==> BoundOf(pc) == Start)
    ensures var a, b := Projected(ph, s, hemisphere), Projected(ph, t, hemisphere);
            var one, other := LabelOf(ph, s, hemisphere, pc), LabelOf(ph, t, hemisphere, pc);
            a >= Origin(ph) && b >= Origin(ph) && one.Some? && other.Some? ==>
              (one == other <==> OpensBlock(BlockStart(a, Origin(ph), StrideOf(pc)), b, Origin(ph), StrideOf(pc)))
  {
    var a, b, stride, pad := Projected(ph, s, hemisphere), Projected(ph, t, hemisphere), StrideOf(pc), PadOf(pc);
    var one, other := LabelOf(ph, s, hemisphere, pc), LabelOf(ph, t, hemisphere, pc);
    if a >= Origin(ph) && b >= Origin(ph) && one.Some? && other.Some? {
      LabelIsNumber(ph, s, hemisphere, pc);
      LabelIsNumber(ph, t, hemisphere, pc);
      SameLabelIsSameBlock(a, b, Origin(ph), stride, pad);
    }
  }

  lemma LabelIsNumber(ph: Placeholder, t: Timestamp, hemisphere: Hemisphere, pc: Option<PartConfig>)
    requires IsTimestamp(t) && IsNumeric(ph, pc) && (StrideOf(pc) > 1 ==> BoundOf(pc) == Start)
    requires LabelOf(ph, t, hemisphere, pc).Some?
    ensures var start := BlockStart(Projected(ph, t, hemisphere), Origin(ph), StrideOf(pc));
            LabelOf(ph, t, hemisphere, pc) == Some(Tags.Slug(Numerals.Format(start, PadOf(pc))))
  {
    NumberText(ph, t, hemisphere, pc);
  }

  lemma SameLabelIsSameBlock(a: int, b: int, origin: int, stride: int, pad: nat)
    requires stride >= 1 && a >= origin >= 0 && b >= origin
    ensures var m, n := BlockStart(a, origin, stride), BlockStart(b, origin, stride);
            (Tags.Slug(Numerals.Format(m, pad)) == Tags.Slug(Numerals.Format(n, pad)))
              <==> OpensBlock(m, b, origin, stride)
  {
    StartOpens(a, origin, stride);
    StartOpens(b, origin, stride);
    BlocksPartition(a, b, origin, stride);
    StartNotBelowOrigin(a, origin, stride);
    StartNotBelowOrigin(b, origin, stride);
    SegmentationTheorems.NumberLabelsAreInjective(
      BlockStart(a, origin, stride), BlockStart(b, origin, stride), pad);
  }

  function Origin(ph: Placeholder): int {
    if ph == Year || ph == IsoYear then 0 else 1
  }

  lemma OriginIsFixed(ph: Placeholder, t: Timestamp)
    requires IsTimestamp(t)
    ensures FieldRange(ph, t).Some? ==> FieldRange(ph, t).value.0 == Origin(ph)
  {}

  lemma StrideOne(raw: int, origin: int)
    ensures BlockStart(raw, origin, 1) == raw
  {}

  lemma StartNotBelowOrigin(raw: int, origin: int, stride: int)
    requires stride >= 1 && raw >= origin
    ensures BlockStart(raw, origin, stride) >= origin
  {
    NonNegativeQuotient(raw - origin, stride);
    ProductBound(-1, (raw - origin) / stride, stride);
  }

  lemma NonNegativeQuotient(a: int, b: int)
    requires a >= 0 && b >= 1
    ensures a / b >= 0
  {}

  // -- Names ------------------------------------------------------------------

  /** A field with names has one per value of its range. */
  lemma NamesCoverTheRange(ph: Placeholder, t: Timestamp)
    requires IsTimestamp(t) && HasNamedForm(ph)
    ensures FieldRange(ph, t) == Some((1, |FullNames(ph)|))
  {}

  /** The three letters an abbreviation keeps already tell the names of a field apart. */
  lemma AbbreviationsDiffer(ph: Placeholder, a: nat, b: nat)
    requires HasNamedForm(ph) && a < b < |FullNames(ph)|
    ensures |FullNames(ph)[a]| >= 3 && |FullNames(ph)[b]| >= 3 && FullNames(ph)[a][..3] != FullNames(ph)[b][..3]
  {
    var x, y := FullNames(ph)[a], FullNames(ph)[b];
    assert x[..3][0] == x[0] && x[..3][1] == x[1] && x[..3][2] == x[2];
    assert y[..3][0] == y[0] && y[..3][1] == y[1] && y[..3][2] == y[2];
  }

  /** Names, abbreviated or not, tell the values of a field apart. */
  lemma NamesTellValuesApart(ph: Placeholder, a: int, b: int, abbrev: bool)
    requires HasNamedForm(ph) && 1 <= a <= |FullNames(ph)| && 1 <= b <= |FullNames(ph)|
    ensures NameFor(ph, a, abbrev) == NameFor(ph, b, abbrev) <==> a == b
  {
    NameKeepsThree(ph, a, abbrev);
    NameKeepsThree(ph, b, abbrev);
    if a < b { AbbreviationsDiffer(ph, a - 1, b - 1); }
    if b < a { AbbreviationsDiffer(ph, b - 1, a - 1); }
  }

  lemma NameKeepsThree(ph: Placeholder, a: int, abbrev: bool)
    requires HasNamedForm(ph) && 1 <= a <= |FullNames(ph)|
    ensures var full, name := FullNames(ph)[a - 1], NameFor(ph, a, abbrev);
            |full| >= 3 && |name| >= 3 && name[..3] == full[..3]
  {}
}
