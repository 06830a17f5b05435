/** Segment templates: dotted levels of literal text and placeholders. */
module Templates {
  import opened Wrappers
  import opened Segments
  import Numerals
  import Tags
  import Text

  datatype Part = Literal(text: string) | Field(ph: Placeholder)

  datatype TemplateError = Unclosed | UnexpectedBrace | UnknownPlaceholder(name: string) | EmptyLevel(level: string)

  function PlaceholderName(ph: Placeholder): string {
    match ph
    case Year => "year"
    case IsoYear => "iso_year"
    case Quarter => "quarter"
    case Season => "season"
    case Month => "month"
    case Week => "week"
    case Day => "day"
    case Weekday => "weekday"
    case Daypart => "daypart"
  }

  const PLACEHOLDERS := [Year, IsoYear, Quarter, Season, Month, Week, Day, Weekday, Daypart]

  function FindName(name: string, phs: seq<Placeholder>): (r: Option<Placeholder>)
    ensures r.Some? ==> PlaceholderName(r.value) == name
    ensures r.None? ==> forall i :: 0 <= i < |phs| ==> PlaceholderName(phs[i]) != name
  {
    if phs == [] then None else if PlaceholderName(phs[0]) == name then Some(phs[0]) else FindName(name, phs[1..])
  }

  function NamedPlaceholder(name: string): Option<Placeholder> {
    FindName(name, PLACEHOLDERS)
  }

  lemma DistinctNames(a: Placeholder, b: Placeholder)
    requires a != b
    ensures PlaceholderName(a) != PlaceholderName(b)
  {}

  /** Names and placeholders correspond one to one. */
  lemma NamesAreUnique(name: string, ph: Placeholder)
    ensures NamedPlaceholder(name) == Some(ph) <==> PlaceholderName(ph) == name
  {
    var r := NamedPlaceholder(name);
    if PlaceholderName(ph) == name {
      assert ph in PLACEHOLDERS;
      if r.Some? && r.value != ph { DistinctNames(r.value, ph); }
    }
  }

  // -- One level --------------------------------------------------------------

  /** Characters before the first `c`, or all of them. */
  function UpTo(s: string, c: char): (n: nat)
    ensures n <= |s| && c !in s[..n] && (n < |s| ==> s[n] == c)
  {
    if s == [] || s[0] == c then 0
    else
      var n := 1 + UpTo(s[1..], c);
      assert s[..n] == [s[0]] + s[1..][..n - 1];
      n
  }

  function Flush(literal: string): seq<Part> {
    if literal == [] then [] else [Literal(literal)]
  }

  /** The placeholders a template may name. */
  type Names = string -> Option<Placeholder>

  /** Every placeholder is found under its own name only. */
  ghost predicate Faithful(named: Names) {
    forall name: string :: named(name).Some? ==> PlaceholderName(named(name).value) == name
  }

  lemma NamesAreFaithful()
    ensures Faithful(NamedPlaceholder)
  {}

  /** The parts of the rest of a level, given the literal text collected so far. */
  function ParseFrom(named: Names, s: string, literal: string): Result<seq<Part>, TemplateError>
    decreases |s|
  {
    if s == [] then Ok(Flush(literal))
    else if s[0] == '{' then
      var n := UpTo(s[1..], '}');
      if n == |s| - 1 then Err(Unclosed)
      else
        match named(s[1..n + 1])
        case None => Err(UnknownPlaceholder(s[1..n + 1]))
        case Some(ph) => Prepend(Flush(literal) + [Field(ph)], ParseFrom(named, s[n + 2..], []))
    else if s[0] == '}' then Err(UnexpectedBrace)
    else ParseFrom(named, s[1..], literal + [s[0]])
  }

  function Prepend(parts: seq<Part>, r: Result<seq<Part>, TemplateError>): Result<seq<Part>, TemplateError> {
    match r case Ok(rest) => Ok(parts + rest) case Err(e) => Err(e)
  }

  lemma PrependNothing(r: Result<seq<Part>, TemplateError>)
    ensures Prepend([], r) == r
  {
    if r.Ok? { assert [] + r.value == r.value; }
  }

  /** Scan to the closing brace. */
  method ScanName(level: string, start: nat) returns (end: nat)
    requires start <= |level|
    ensures start <= end <= |level| && end - start == UpTo(level[start..], '}')
  {
    end := start;
    while end < |level| && level[end] != '}'
      invariant start <= end <= |level| && '}' !in level[start..end]
    {
      end := end + 1;
    }
    assert level[start..][..end - start] == level[start..end];
    UpToIs(level[start..], '}', end - start);
  }

  /** What an opening brace at the front of `rest`, closed `n` characters on, contributes. */
  lemma BraceStep(named: Names, rest: string, literal: string, n: nat)
    requires rest != [] && rest[0] == '{' && n == UpTo(rest[1..], '}')
    ensures n == |rest| - 1 ==> ParseFrom(named, rest, literal) == Err(Unclosed)
    ensures n < |rest| - 1 ==>
      var ph := named(rest[1..n + 1]);
      ParseFrom(named, rest, literal) ==
        if ph.None? then Err(UnknownPlaceholder(rest[1..n + 1]))
        else Prepend(Flush(literal) + [Field(ph.value)], ParseFrom(named, rest[n + 2..], []))
  {}

  /** Slices of a tail are slices of the whole. */
  lemma SliceOfTail(s: string, i: nat, a: nat, b: nat)
    requires i + a <= i + b <= |s|
    ensures s[i..][a..b] == s[i + a..i + b] && s[i..][b..] == s[i + b..]
  {}

  lemma PrependTwice(a: seq<Part>, b: seq<Part>, r: Result<seq<Part>, TemplateError>)
    ensures Prepend(a, Prepend(b, r)) == Prepend(a + b, r)
  {
    if r.Ok? { assert a + (b + r.value) == a + b + r.value; }
  }

  /** What is parsed so far, put before the parse of the rest, is the parse of the whole. */
  ghost predicate Progress(
      named: Names, whole: Result<seq<Part>, TemplateError>, rest: string, parts: seq<Part>, literal: string)
  {
    whole == Prepend(parts, ParseFrom(named, rest, literal))
  }

  lemma LiteralProgress(
      named: Names, whole: Result<seq<Part>, TemplateError>, rest: string, parts: seq<Part>, literal: string)
    requires Progress(named, whole, rest, parts, literal) && rest != []
    ensures rest[0] == '}' ==> whole == Err(UnexpectedBrace)
    ensures rest[0] != '{' && rest[0] != '}' ==> Progress(named, whole, rest[1..], parts, literal + [rest[0]])
  {}

  lemma BraceProgress(
      named: Names, whole: Result<seq<Part>, TemplateError>, rest: string, n: nat, parts: seq<Part>, literal: string)
    requires Progress(named, whole, rest, parts, literal) && rest != [] && rest[0] == '{' && n == UpTo(rest[1..], '}')
    ensures n == |rest| - 1 ==> whole == Err(Unclosed)
    ensures n < |rest| - 1 ==>
      match named(rest[1..n + 1])
      case None => whole == Err(UnknownPlaceholder(rest[1..n + 1]))
      case Some(ph) => Progress(named, whole, rest[n + 2..], parts + (Flush(literal) + [Field(ph)]), [])
  {
    BraceStep(named, rest, literal, n);
    if n < |rest| - 1 && named(rest[1..n + 1]).Some? {
      PrependTwice(parts, Flush(literal) + [Field(named(rest[1..n + 1]).value)], ParseFrom(named, rest[n + 2..], []));
    }
  }

  /** One pass over the characters, with an inner scan to each closing brace. */
  method ParseLevel(named: Names, level: string) returns (r: Result<seq<Part>, TemplateError>)
    ensures r == ParseFrom(named, level, [])
  {
    ghost var whole := ParseFrom(named, level, []);
    var parts: seq<Part> := [];
    var literal := "";
    var i := 0;
    assert level[0..] == level;
    PrependNothing(whole);
    while i < |level|
      invariant 0 <= i <= |level| && Progress(named, whole, level[i..], parts, literal)
    {
      var c := level[i];
      ghost var rest := level[i..];
      SliceOfTail(level, i, 0, 1);
      if c == '{' {
        var end := ScanName(level, i + 1);
        BraceProgress(named, whole, rest, end - i - 1, parts, literal);
        if end == |level| { return Err(Unclosed); }
        SliceOfTail(level, i, 1, end - i);
        SliceOfTail(level, i, 1, end - i + 1);
        var ph := named(level[i + 1..end]);
        if ph.None? { return Err(UnknownPlaceholder(level[i + 1..end])); }
        parts := parts + (Flush(literal) + [Field(ph.value)]);
        literal := "";
        i := end + 1;
      } else {
        LiteralProgress(named, whole, rest, parts, literal);
        if c == '}' { return Err(UnexpectedBrace); }
        literal := literal + [c];
        i := i + 1;
      }
    }
    assert level[i..] == [];
    r := Ok(parts + Flush(literal));
  }

  lemma {:induction false} UpToIs(s: string, c: char, n: nat)
    requires n <= |s| && c !in s[..n] && (n < |s| ==> s[n] == c)
    ensures UpTo(s, c) == n
  {}

  function ShowPart(p: Part): string {
    match p case Literal(text) => text case Field(ph) => "{" + PlaceholderName(ph) + "}"
  }

  /** How a level is written. */
  function Show(parts: seq<Part>): string {
    if parts == [] then [] else ShowPart(parts[0]) + Show(parts[1..])
  }

  lemma {:induction false} ShowAppend(a: seq<Part>, b: seq<Part>)
    ensures Show(a + b) == Show(a) + Show(b)
  {
    if a == [] {
      assert a + b == b;
    } else {
      assert (a + b)[1..] == a[1..] + b;
      ShowAppend(a[1..], b);
    }
  }

  lemma ShowOne(p: Part)
    ensures Show([p]) == ShowPart(p)
  {}

  lemma ShowFlushed(literal: string, rest: seq<Part>)
    ensures Show(Flush(literal) + rest) == literal + Show(rest)
  {
    ShowAppend(Flush(literal), rest);
    if literal != [] { ShowOne(Literal(literal)); }
  }

  lemma ShowBraced(named: Names, name: string, s: string, n: nat)
    requires n < |s| - 1 && s[0] == '{' && s[n + 1] == '}' && name == s[1..n + 1]
    requires Faithful(named) && named(name).Some?
    ensures ShowPart(Field(named(name).value)) + s[n + 2..] == s
  {}

  lemma ShowJoined(literal: string, ph: Placeholder, rest: seq<Part>)
    ensures Show(Flush(literal) + [Field(ph)] + rest) == literal + (ShowPart(Field(ph)) + Show(rest))
  {}

  lemma ShowBraceCase(named: Names, s: string, literal: string, n: nat, rest: seq<Part>)
    requires Faithful(named) && s != [] && s[0] == '{' && n == UpTo(s[1..], '}') && ParseFrom(named, s, literal).Ok?
    requires n < |s| - 1 ==> ParseFrom(named, s[n + 2..], []) == Ok(rest) && Show(rest) == s[n + 2..]
    ensures Show(ParseFrom(named, s, literal).value) == literal + s
  {
    BraceStep(named, s, literal, n);
    ShowBraced(named, s[1..n + 1], s, n);
    ShowJoined(literal, named(s[1..n + 1]).value, rest);
  }

  /** An accepted level is written exactly as its parts are. */
  lemma {:induction false} ShowUndoesParse(named: Names, s: string, literal: string)
    requires Faithful(named) && ParseFrom(named, s, literal).Ok?
    ensures Show(ParseFrom(named, s, literal).value) == literal + s
    decreases |s|
  {
    if s == [] {
      ShowFlushed(literal, []);
      assert Flush(literal) + [] == Flush(literal);
    } else if s[0] == '{' {
      var n := UpTo(s[1..], '}');
      BraceStep(named, s, literal, n);
      var rest := ParseFrom(named, s[n + 2..], []).value;
      ShowUndoesParse(named, s[n + 2..], []);
      ShowBraceCase(named, s, literal, n, rest);
    } else {
      ShowUndoesParse(named, s[1..], literal + [s[0]]);
      assert literal + [s[0]] + s[1..] == literal + s;
    }
  }

  // -- A whole template -------------------------------------------------------

  /** A level needs a placeholder or an alphanumeric literal character. */
  predicate HasContent(parts: seq<Part>) {
    exists i :: 0 <= i < |parts| && PartHasContent(parts[i])
  }

  predicate PartHasContent(p: Part) {
    p.Field? || exists j :: 0 <= j < |p.text| && Tags.IsAlphanumeric(p.text[j])
  }

  function ParseLevels(named: Names, levels: seq<string>): Result<seq<seq<Part>>, TemplateError> {
    if levels == [] then Ok([])
    else
      var last := |levels| - 1;
      match ParseLevels(named, levels[..last])
      case Err(e) => Err(e)
      case Ok(parsed) =>
        match ParseFrom(named, levels[last], [])
        case Err(e) => Err(e)
        case Ok(parts) => if HasContent(parts) then Ok(parsed + [parts]) else Err(EmptyLevel(levels[last]))
  }

  function Parsed(template: string): Result<seq<seq<Part>>, TemplateError> {
    ParseLevels(NamedPlaceholder, Text.Split(template, '.'))
  }

  method ParseTemplate(template: string) returns (r: Result<seq<seq<Part>>, TemplateError>)
    ensures r == Parsed(template)
  {
    var raw := Text.Split(template, '.');
    var levels: seq<seq<Part>> := [];
    for i := 0 to |raw|
      invariant ParseLevels(NamedPlaceholder, raw[..i]) == Ok(levels)
    {
      assert raw[..i + 1][..i] == raw[..i];
      var parts := ParseLevel(NamedPlaceholder, raw[i]);
      if parts.Err? {
        FirstErrorWins(NamedPlaceholder, raw, i + 1);
        return Err(parts.error);
      }
      if !HasContent(parts.value) {
        FirstErrorWins(NamedPlaceholder, raw, i + 1);
        return Err(EmptyLevel(raw[i]));
      }
      levels := levels + [parts.value];
    }
    assert raw[..|raw|] == raw;
    r := Ok(levels);
  }

  lemma {:induction false} FirstErrorWins(named: Names, levels: seq<string>, n: nat)
    requires n <= |levels| && ParseLevels(named, levels[..n]).Err?
    ensures ParseLevels(named, levels) == ParseLevels(named, levels[..n])
  {
    if n == |levels| {
      assert levels[..n] == levels;
    } else {
      var shorter := levels[..|levels| - 1];
      assert shorter[..n] == levels[..n];
      FirstErrorWins(named, shorter, n);
    }
  }

  lemma {:induction false} LevelsExact(named: Names, levels: seq<string>)
    requires Faithful(named) && ParseLevels(named, levels).Ok?
    ensures var parsed := ParseLevels(named, levels).value;
            |parsed| == |levels|
            && forall i :: 0 <= i < |levels| ==> Show(parsed[i]) == levels[i] && HasContent(parsed[i])
  {
    if levels != [] {
      var last := |levels| - 1;
      LevelsExact(named, levels[..last]);
      ShowUndoesParse(named, levels[last], []);
    }
  }

  /** An accepted template has one level per dotted segment, each with content and each written as
      it was: printing the levels gives the template back. */
  lemma AcceptedTemplate(template: string)
    requires Parsed(template).Ok?
    ensures var levels := Parsed(template).value;
            |levels| == |Text.Split(template, '.')| >= 1
            && (forall i :: 0 <= i < |levels| ==> HasContent(levels[i]))
            && Text.Join(seq(|levels|, i requires 0 <= i < |levels| => Show(levels[i])), '.') == template
  {
    var raw, levels := Text.Split(template, '.'), Parsed(template).value;
    NamesAreFaithful();
    LevelsExact(NamedPlaceholder, raw);
    assert seq(|levels|, i requires 0 <= i < |levels| => Show(levels[i])) == raw;
    Text.JoinSplit(template, '.');
  }
}
