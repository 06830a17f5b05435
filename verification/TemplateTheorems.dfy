/** Which templates are accepted, with which levels, and what a rejected level is rejected for. */
module TemplateTheorems {
  import opened Segments
  import opened Templates
  import opened Wrappers
  import Text

  predicate IsPlain(s: string) {
    '{' !in s && '}' !in s && '.' !in s
  }

  /** Non-empty plain literals, no two of them adjacent. */
  predicate IsCanonical(parts: seq<Part>) {
    && (forall i :: 0 <= i < |parts| && parts[i].Literal? ==> parts[i].text != [] && IsPlain(parts[i].text))
    && forall i :: 0 <= i < |parts| - 1 ==> parts[i].Field? || parts[i + 1].Field?
  }

  lemma NamesArePlain(ph: Placeholder)
    ensures IsPlain(PlaceholderName(ph))
  {}

  // -- Parsing what is printed ------------------------------------------------

  lemma {:induction false} TextIsCollected(named: Names, text: string, rest: string, literal: string)
    requires '{' !in text && '}' !in text
    ensures ParseFrom(named, text + rest, literal) == ParseFrom(named, rest, literal + text)
    decreases |text|
  {
    if text == [] {
      assert text + rest == rest && literal + text == literal;
    } else {
      assert (text + rest)[1..] == text[1..] + rest && literal + text == literal + [text[0]] + text[1..];
      TextIsCollected(named, text[1..], rest, literal + [text[0]]);
    }
  }

  lemma NameIsFound(named: Names, name: string, rest: string, literal: string)
    requires '}' !in name
    ensures var s := "{" + name + "}" + rest;
      ParseFrom(named, s, literal) ==
        match named(name)
        case None => Err(UnknownPlaceholder(name))
        case Some(ph) => Prepend(Flush(literal) + [Templates.Field(ph)], ParseFrom(named, rest, []))
  {
    var s := "{" + name + "}" + rest;
    assert s[1..][..|name|] == name && s[1..][|name|] == '}';
    UpToIs(s[1..], '}', |name|);
    BraceStep(named, s, literal, |name|);
    assert s[1..|name| + 1] == name && s[|name| + 2..] == rest;
  }

  /** The end of a level or a brace ends a literal. */
  predicate EndsLiteral(rest: string) {
    rest == [] || rest[0] == '{' || rest[0] == '}'
  }

  lemma LiteralEnds(named: Names, rest: string, literal: string)
    requires EndsLiteral(rest)
    ensures ParseFrom(named, rest, literal) == Prepend(Flush(literal), ParseFrom(named, rest, []))
  {
    if rest == [] {
      assert Flush(literal) + [] == Flush(literal);
    } else if rest[0] == '{' {
      var n := UpTo(rest[1..], '}');
      BraceStep(named, rest, literal, n);
      BraceStep(named, rest, [], n);
      if n < |rest| - 1 && named(rest[1..n + 1]).Some? {
        var field := [Templates.Field(named(rest[1..n + 1]).value)];
        assert [] + field == field;
        PrependTwice(Flush(literal), field, ParseFrom(named, rest[n + 2..], []));
      }
    }
  }

  /** A printed part in front of a text that ends literals. */
  lemma FrontIsParsed(part: Part, tail: string)
    requires part.Literal? ==> part.text != [] && IsPlain(part.text) && EndsLiteral(tail)
    ensures ParseFrom(NamedPlaceholder, ShowPart(part) + tail, [])
         == Prepend([part], ParseFrom(NamedPlaceholder, tail, []))
  {
    match part
    case Field(ph) =>
      NamesAreUnique(PlaceholderName(ph), ph);
      NamesArePlain(ph);
      NameIsFound(NamedPlaceholder, PlaceholderName(ph), tail, []);
      assert [] + [part] == [part];
    case Literal(text) =>
      TextIsCollected(NamedPlaceholder, text, tail, []);
      assert [] + text == text;
      LiteralEnds(NamedPlaceholder, tail, text);
  }

  lemma FrontJoins(parts: seq<Part>, tail: string, after: Result<seq<Part>, TemplateError>)
    requires parts != [] && ParseFrom(NamedPlaceholder, tail, []) == Prepend(parts[1..], after)
    requires parts[0].Literal? ==> parts[0].text != [] && IsPlain(parts[0].text) && EndsLiteral(tail)
    ensures ParseFrom(NamedPlaceholder, ShowPart(parts[0]) + tail, []) == Prepend(parts, after)
  {
    FrontIsParsed(parts[0], tail);
    PrependTwice([parts[0]], parts[1..], after);
    assert parts == [parts[0]] + parts[1..];
  }

  lemma ShowFront(parts: seq<Part>, rest: string)
    requires parts != []
    ensures Show(parts) + rest == ShowPart(parts[0]) + (Show(parts[1..]) + rest)
  {}

  /** The parts of a printed level come back, before whatever stands behind them. */
  lemma {:induction false} ShownIsParsed(parts: seq<Part>, rest: string)
    requires IsCanonical(parts) && EndsLiteral(rest)
    ensures ParseFrom(NamedPlaceholder, Show(parts) + rest, [])
         == Prepend(parts, ParseFrom(NamedPlaceholder, rest, []))
    decreases |parts|
  {
    if parts == [] {
      assert Show([]) + rest == rest;
      PrependNothing(ParseFrom(NamedPlaceholder, rest, []));
    } else {
      ShownIsParsed(parts[1..], rest);
      if parts[0].Literal? { NextEndsLiteral(parts, rest); }
      ShowFront(parts, rest);
      FrontJoins(parts, Show(parts[1..]) + rest, ParseFrom(NamedPlaceholder, rest, []));
    }
  }

  lemma NextEndsLiteral(parts: seq<Part>, rest: string)
    requires IsCanonical(parts) && EndsLiteral(rest) && parts != [] && parts[0].Literal?
    ensures EndsLiteral(Show(parts[1..]) + rest)
  {
    if |parts| > 1 { assert parts[1].Field?; }
  }

  // -- What is parsed is canonical --------------------------------------------

  lemma FlushedIsCanonical(literal: string, ph: Placeholder, rest: seq<Part>)
    requires IsPlain(literal) && IsCanonical(rest)
    ensures IsCanonical(Flush(literal) + [Templates.Field(ph)] + rest)
  {
    var parts := Flush(literal) + [Templates.Field(ph)] + rest;
    var n := |Flush(literal)|;
    forall i | 0 <= i < |parts| - 1 ensures parts[i].Field? || parts[i + 1].Field? {
      if i > n { assert parts[i] == rest[i - n - 1] && parts[i + 1] == rest[i - n]; }
    }
  }

  lemma PlainRest(s: string, i: nat)
    requires i <= |s| && '.' !in s
    ensures '.' !in s[i..]
  {
    forall c | c in s[i..] ensures c in s {}
  }

  lemma {:induction false} ParsedIsCanonical(named: Names, s: string, literal: string)
    requires '.' !in s && IsPlain(literal) && ParseFrom(named, s, literal).Ok?
    ensures IsCanonical(ParseFrom(named, s, literal).value)
    decreases |s|
  {
    if s == [] {
    } else if s[0] == '{' {
      var n := UpTo(s[1..], '}');
      BraceStep(named, s, literal, n);
      PlainRest(s, n + 2);
      ParsedIsCanonical(named, s[n + 2..], []);
      FlushedIsCanonical(literal, named(s[1..n + 1]).value, ParseFrom(named, s[n + 2..], []).value);
    } else {
      PlainRest(s, 1);
      assert s[0] in s;
      ParsedIsCanonical(named, s[1..], literal + [s[0]]);
    }
  }

  /** A level without dots has the parts that print to it, if any: it is accepted with them exactly when
      they are canonical and print to it. */
  lemma LevelExactly(level: string, parts: seq<Part>)
    requires '.' !in level
    ensures ParseFrom(NamedPlaceholder, level, []) == Ok(parts) <==> IsCanonical(parts) && Show(parts) == level
  {
    NamesAreFaithful();
    if ParseFrom(NamedPlaceholder, level, []) == Ok(parts) {
      ShowUndoesParse(NamedPlaceholder, level, []);
      ParsedIsCanonical(NamedPlaceholder, level, []);
    }
    if IsCanonical(parts) && Show(parts) == level {
      ShownIsParsed(parts, []);
      assert level + [] == level && parts + [] == parts;
    }
  }

  /** What follows the longest part of a level that parses decides the error: a closing brace without an
      opening one, an opening brace that is never closed, or the name between two braces. */
  lemma LevelErrors(parts: seq<Part>, name: string, rest: string)
    requires IsCanonical(parts) && '}' !in name
    ensures ParseFrom(NamedPlaceholder, Show(parts) + ("}" + rest), []) == Err(UnexpectedBrace)
    ensures ParseFrom(NamedPlaceholder, Show(parts) + ("{" + name), []) == Err(Unclosed)
    ensures (forall ph :: PlaceholderName(ph) != name) ==>
      ParseFrom(NamedPlaceholder, Show(parts) + ("{" + name + "}" + rest), []) == Err(UnknownPlaceholder(name))
  {
    ShownIsParsed(parts, "}" + rest);
    ShownIsParsed(parts, "{" + name);
    var open := "{" + name;
    assert open[1..] == name;
    UpToIs(name, '}', |name|);
    BraceStep(NamedPlaceholder, open, [], |name|);
    if forall ph :: PlaceholderName(ph) != name {
      ShownIsParsed(parts, "{" + name + "}" + rest);
      NameIsFound(NamedPlaceholder, name, rest, []);
      if NamedPlaceholder(name).Some? { NamesAreUnique(name, NamedPlaceholder(name).value); }
    }
  }

  // -- Whole templates --------------------------------------------------------

  ghost predicate AreLevels(levels: seq<seq<Part>>) {
    forall i :: 0 <= i < |levels| ==> IsCanonical(levels[i]) && HasContent(levels[i])
  }

  ghost function ShowAll(levels: seq<seq<Part>>): seq<string> {
    seq(|levels|, i requires 0 <= i < |levels| => Show(levels[i]))
  }

  lemma {:induction false} ShownIsFree(parts: seq<Part>)
    requires IsCanonical(parts)
    ensures '.' !in Show(parts)
  {
    if parts != [] {
      assert IsCanonical(parts[1..]);
      ShownIsFree(parts[1..]);
      if parts[0].Field? { NamesArePlain(parts[0].ph); }
    }
  }

  lemma LastLevel(levels: seq<seq<Part>>, init: seq<seq<Part>>, level: seq<Part>)
    requires levels == init + [level]
    ensures ShowAll(levels) == ShowAll(init) + [Show(level)]
    ensures AreLevels(levels) <==> AreLevels(init) && IsCanonical(level) && HasContent(level)
  {
    if AreLevels(levels) {
      forall i | 0 <= i < |init| ensures IsCanonical(init[i]) && HasContent(init[i]) { assert init[i] == levels[i]; }
      assert level == levels[|init|];
    }
  }

  lemma SameEnds(a: seq<string>, x: string, b: seq<string>, y: string)
    ensures a + [x] == b + [y] <==> a == b && x == y
  {
    if a + [x] == b + [y] {
      assert |a + [x]| == |b + [y]|;
      assert (a + [x])[..|a|] == a && (b + [y])[..|b|] == b && (a + [x])[|a|] == x && (b + [y])[|b|] == y;
    }
  }

  lemma {:induction false} LevelsParse(raw: seq<string>, levels: seq<seq<Part>>)
    requires Text.Free(raw, '.')
    ensures ParseLevels(NamedPlaceholder, raw) == Ok(levels) <==> AreLevels(levels) && ShowAll(levels) == raw
    decreases |raw|
  {
    if raw != [] && levels != [] {
      var init, level := levels[..|levels| - 1], levels[|levels| - 1];
      var front, last := raw[..|raw| - 1], raw[|raw| - 1];
      assert levels == init + [level] && raw == front + [last];
      LevelsParse(front, init);
      LevelExactly(last, level);
      LastLevel(levels, init, level);
      SameEnds(ShowAll(init), Show(level), front, last);
      OneMoreLevel(front, last, init, level);
    } else {
      assert |ShowAll(levels)| == |levels|;
    }
  }

  lemma OneMoreLevel(front: seq<string>, last: string, init: seq<seq<Part>>, level: seq<Part>)
    ensures ParseLevels(NamedPlaceholder, front + [last]) == Ok(init + [level]) <==>
      && ParseLevels(NamedPlaceholder, front) == Ok(init)
      && ParseFrom(NamedPlaceholder, last, []) == Ok(level) && HasContent(level)
  {
    var raw := front + [last];
    assert raw[..|raw| - 1] == front && raw[|raw| - 1] == last;
    var parsed := ParseLevels(NamedPlaceholder, front);
    if parsed.Ok? && ParseFrom(NamedPlaceholder, last, []).Ok? {
      var other := ParseFrom(NamedPlaceholder, last, []).value;
      if parsed.value + [other] == init + [level] {
        assert (parsed.value + [other])[..|init|] == init && (parsed.value + [other])[|init|] == level;
      }
    }
  }

  /** A template is accepted with the given levels exactly when they are canonical, each has content, and
      joined by dots they print to it. */
  lemma TemplateExactly(template: string, levels: seq<seq<Part>>)
    requires levels != []
    ensures Parsed(template) == Ok(levels) <==> AreLevels(levels) && Text.Join(ShowAll(levels), '.') == template
  {
    var raw := Text.Split(template, '.');
    Text.SplitFree(template, '.');
    Text.JoinSplit(template, '.');
    LevelsParse(raw, levels);
    if AreLevels(levels) && Text.Join(ShowAll(levels), '.') == template {
      forall i | 0 <= i < |levels| ensures '.' !in ShowAll(levels)[i] { ShownIsFree(levels[i]); }
      Text.SplitJoin(ShowAll(levels), '.');
    }
  }
}
