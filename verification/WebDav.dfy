/** The WebDAV path codec. A byte is a character below 256. */
module WebDav {
  import opened Wrappers
  import opened Text
  import opened Utf8

  ghost predicate IsBytes(s: string) {
    forall i :: 0 <= i < |s| ==> s[i] < 256 as char
  }

  // -- Percent-encoding (sections 2.1 and 2.3 of RFC 3986) --------------------

  predicate IsUnreserved(b: char) {
    '0' <= b <= '9' || 'a' <= b <= 'z' || 'A' <= b <= 'Z' || b == '-' || b == '_' || b == '.' || b == '~'
  }

  function HexVal(b: char): Option<nat> {
    if '0' <= b <= '9' then Some(b as int - '0' as int)
    else if 'a' <= b <= 'f' then Some(b as int - 'a' as int + 10)
    else if 'A' <= b <= 'F' then Some(b as int - 'A' as int + 10)
    else None
  }

  function HexDigit(n: nat): char
    requires n < 16
  {
    if n < 10 then ('0' as int + n) as char else ('A' as int + n - 10) as char
  }

  function EncodeByte(b: char): string
    requires b < 256 as char
  {
    if IsUnreserved(b) then [b] else ['%', HexDigit(b as int / 16), HexDigit(b as int % 16)]
  }

  function Encode(s: string): string
    requires IsBytes(s)
  {
    if s == [] then [] else EncodeByte(s[0]) + Encode(s[1..])
  }

  /** A percent sign with two hex digits after it stands for a byte; anything else for itself. */
  function Decode(s: string): string {
    if s == [] then []
    else if s[0] == '%' && |s| > 2 && HexVal(s[1]).Some? && HexVal(s[2]).Some? then
      [(HexVal(s[1]).value * 16 + HexVal(s[2]).value) as char] + Decode(s[3..])
    else [s[0]] + Decode(s[1..])
  }

  lemma {:induction false} EncodeAppend(s: string, b: char)
    requires IsBytes(s + [b]) && IsBytes(s) && b < 256 as char
    ensures Encode(s + [b]) == Encode(s) + EncodeByte(b)
  {
    if s == [] {
      assert s + [b] == [b] && [b][1..] == [];
    } else {
      assert (s + [b])[1..] == s[1..] + [b];
      EncodeAppend(s[1..], b);
    }
  }

  method EncodeSegment(seg: string) returns (out: string)
    requires IsBytes(seg)
    ensures out == Encode(seg)
  {
    out := "";
    for i := 0 to |seg|
      invariant IsBytes(seg[..i]) && out == Encode(seg[..i])
    {
      var b := seg[i];
      assert seg[..i + 1] == seg[..i] + [b];
      EncodeAppend(seg[..i], b);
      if IsUnreserved(b) {
        out := out + [b];
      } else {
        out := out + ['%', HexDigit(b as int / 16), HexDigit(b as int % 16)];
      }
    }
    assert seg[..|seg|] == seg;
  }

  /** What the front of a string decodes to. */
  lemma DecodeStep(rest: string)
    requires rest != []
    ensures if rest[0] == '%' && |rest| > 2 && HexVal(rest[1]).Some? && HexVal(rest[2]).Some?
            then Decode(rest) == [(HexVal(rest[1]).value * 16 + HexVal(rest[2]).value) as char] + Decode(rest[3..])
            else Decode(rest) == [rest[0]] + Decode(rest[1..])
  {}

  lemma Shift(out: string, c: char, rest: string)
    ensures out + ([c] + rest) == (out + [c]) + rest
  {}

  /** The text of a path segment: its decoded bytes, malformed UTF-8 replaced. */
  function PathText(seg: string): string {
    Lossy(Decode(seg))
  }

  method PercentDecode(seg: string) returns (text: string)
    ensures text == PathText(seg) && IsUtf8(text)
  {
    var out := "";
    var i := 0;
    while i < |seg|
      invariant i <= |seg| && out + Decode(seg[i..]) == Decode(seg)
      decreases |seg| - i
    {
      ghost var rest := seg[i..];
      assert rest[0] == seg[i] && rest[1..] == seg[i + 1..];
      DecodeStep(rest);
      if seg[i] == '%' && i + 2 < |seg| {
        var h, l := HexVal(seg[i + 1]), HexVal(seg[i + 2]);
        assert rest[1] == seg[i + 1] && rest[2] == seg[i + 2] && rest[3..] == seg[i + 3..];
        if h.Some? && l.Some? {
          var byte := (h.value * 16 + l.value) as char;
          Shift(out, byte, Decode(seg[i + 3..]));
          out := out + [byte];
          i := i + 3;
          continue;
        }
      }
      Shift(out, seg[i], Decode(seg[i + 1..]));
      out := out + [seg[i]];
      i := i + 1;
    }
    assert out == Decode(seg);
    LossyIsUtf8(out);
    text := Lossy(out);
  }

  lemma HexRoundTrip(n: nat)
    requires n < 16
    ensures HexVal(HexDigit(n)) == Some(n)
  {}

  /** Decoding undoes encoding, for every byte string. */
  lemma {:induction false} DecodeEncode(s: string)
    requires IsBytes(s)
    ensures Decode(Encode(s)) == s
  {
    if s != [] {
      var b, rest := s[0], Encode(s[1..]);
      DecodeEncode(s[1..]);
      if IsUnreserved(b) {
        assert ([b] + rest)[1..] == rest;
      } else {
        var h, l := b as int / 16, b as int % 16;
        HexRoundTrip(h);
        HexRoundTrip(l);
        assert (['%', HexDigit(h), HexDigit(l)] + rest)[3..] == rest;
        assert (h * 16 + l) as char == b;
      }
    }
  }

  /** As text, exactly the well-formed byte strings come back. */
  lemma TextRoundTripExactly(s: string)
    requires IsBytes(s)
    ensures PathText(Encode(s)) == s <==> IsUtf8(s)
  {
    DecodeEncode(s);
    LossyIsIdentityExactly(s);
  }

  /** The output holds only unreserved characters and percent signs, so never a slash, and is empty
      only for the empty string. */
  lemma {:induction false} EncodeIsSafe(s: string)
    requires IsBytes(s)
    ensures forall i :: 0 <= i < |Encode(s)| ==> IsUnreserved(Encode(s)[i]) || Encode(s)[i] == '%'
    ensures Encode(s) == [] <==> s == []
  {
    if s != [] { EncodeIsSafe(s[1..]); }
  }

  // -- Mount paths ------------------------------------------------------------

  ghost predicate AllBytes(segments: seq<string>) {
    forall i :: 0 <= i < |segments| ==> IsBytes(segments[i])
  }

  function EncodeAll(segments: seq<string>): (r: seq<string>)
    requires AllBytes(segments)
    ensures |r| == |segments| && forall i :: 0 <= i < |r| ==> r[i] == Encode(segments[i])
  {
    if segments == [] then [] else [Encode(segments[0])] + EncodeAll(segments[1..])
  }

  function Tail(segments: seq<string>): string
    requires AllBytes(segments)
  {
    if segments == [] then [] else "/" + Encode(segments[0]) + Tail(segments[1..])
  }

  function Href(slug: string, segments: seq<string>, isDir: bool): string
    requires IsBytes(slug) && AllBytes(segments)
  {
    "/webdav/" + Encode(slug) + Tail(segments) + (if isDir then "/" else "")
  }

  lemma {:induction false} TailAppend(segments: seq<string>, seg: string)
    requires AllBytes(segments) && IsBytes(seg) && AllBytes(segments + [seg])
    ensures Tail(segments + [seg]) == Tail(segments) + "/" + Encode(seg)
  {
    if segments == [] {
      assert segments + [seg] == [seg] && [seg][1..] == [];
    } else {
      assert (segments + [seg])[1..] == segments[1..] + [seg];
      TailAppend(segments[1..], seg);
    }
  }

  method HrefFor(slug: string, segments: seq<string>, isDir: bool) returns (href: string)
    requires IsBytes(slug) && AllBytes(segments)
    ensures href == Href(slug, segments, isDir)
  {
    var encoded := EncodeSegment(slug);
    href := "/webdav/" + encoded;
    for i := 0 to |segments|
      invariant AllBytes(segments[..i]) && href == "/webdav/" + Encode(slug) + Tail(segments[..i])
    {
      assert segments[..i + 1] == segments[..i] + [segments[i]];
      TailAppend(segments[..i], segments[i]);
      href := href + "/";
      encoded := EncodeSegment(segments[i]);
      href := href + encoded;
    }
    assert segments[..|segments|] == segments;
    if isDir { href := href + "/"; }
  }

  function NonEmpty(parts: seq<string>): seq<string> {
    if parts == [] then []
    else (if parts[0] == [] then [] else [parts[0]]) + NonEmpty(parts[1..])
  }

  function PathTexts(parts: seq<string>): seq<string> {
    if parts == [] then [] else [PathText(parts[0])] + PathTexts(parts[1..])
  }

  function LossyAll(parts: seq<string>): (r: seq<string>)
    ensures |r| == |parts| && forall i :: 0 <= i < |r| ==> r[i] == Lossy(parts[i])
  {
    if parts == [] then [] else [Lossy(parts[0])] + LossyAll(parts[1..])
  }

  /** The slug and the segments of a mount path; Err is "not found". */
  function ParseMountPath(path: string): Result<(string, seq<string>), ()> {
    var parts := NonEmpty(Split(path, '/'));
    if parts == [] || parts[0] != "webdav" then Err(())
    else if |parts| == 1 then Err(())
    else Ok((PathText(parts[1]), PathTexts(parts[2..])))
  }

  lemma {:induction false} TailIsJoin(first: string, segments: seq<string>)
    requires AllBytes(segments)
    ensures first + Tail(segments) == Join([first] + EncodeAll(segments), '/')
    decreases |segments|
  {
    if segments != [] {
      var second, rest := Encode(segments[0]), EncodeAll(segments[1..]);
      TailIsJoin(second, segments[1..]);
      assert EncodeAll(segments) == [second] + rest;
      assert ([first] + EncodeAll(segments))[1..] == [second] + rest;
      assert Join([first] + EncodeAll(segments), '/') == first + ['/'] + Join([second] + rest, '/');
      assert first + Tail(segments) == first + ("/" + second + Tail(segments[1..]));
    } else {
      assert [first] + EncodeAll(segments) == [first] && first + Tail(segments) == first;
    }
  }

  lemma {:induction false} NonEmptyConcat(a: seq<string>, b: seq<string>)
    ensures NonEmpty(a + b) == NonEmpty(a) + NonEmpty(b)
  {
    if a == [] {
      assert a + b == b;
    } else {
      assert (a + b)[1..] == a[1..] + b;
      NonEmptyConcat(a[1..], b);
    }
  }

  lemma LossyOfRest(segments: seq<string>)
    requires segments != []
    ensures LossyAll(NonEmpty(segments)) ==
      (if segments[0] == [] then [] else [Lossy(segments[0])]) + LossyAll(NonEmpty(segments[1..]))
  {}

  lemma {:induction false} DecodeNonEmpty(segments: seq<string>)
    requires AllBytes(segments)
    ensures PathTexts(NonEmpty(EncodeAll(segments))) == LossyAll(NonEmpty(segments))
    ensures |NonEmpty(EncodeAll(segments))| == |NonEmpty(segments)|
  {
    if segments != [] {
      DecodeNonEmpty(segments[1..]);
      DecodeEncode(segments[0]);
      EncodeIsSafe(segments[0]);
      assert EncodeAll(segments)[1..] == EncodeAll(segments[1..]);
      var rest := NonEmpty(EncodeAll(segments[1..]));
      if segments[0] != [] {
        assert ([Encode(segments[0])] + rest)[1..] == rest;
      } else {
        assert [] + rest == rest && [] + NonEmpty(segments[1..]) == NonEmpty(segments[1..]);
      }
      LossyOfRest(segments);
    }
  }

  /** A printed path splits back into the encoded parts. */
  lemma HrefSplits(slug: string, segments: seq<string>, isDir: bool)
    requires IsBytes(slug) && AllBytes(segments)
    ensures NonEmpty(Split(Href(slug, segments, isDir), '/')) == ["webdav"] + NonEmpty(EncodeAll([slug] + segments))
  {
    var all := [slug] + segments;
    var parts := ["", "webdav"] + EncodeAll(all);
    TailIsJoin("/webdav", all);
    assert all[1..] == segments;
    var body := "/webdav/" + Encode(slug) + Tail(segments);
    assert body == "/webdav" + Tail(all);
    assert "/webdav" + Tail(all) == Join(["/webdav"] + EncodeAll(all), '/');
    forall i | 0 <= i < |EncodeAll(all)| ensures '/' !in EncodeAll(all)[i] { EncodeIsSafe(all[i]); }
    BodyJoins(EncodeAll(all));
    SplitJoin(parts, '/');
    assert Split(body, '/') == parts;
    NonEmptyConcat(["", "webdav"], EncodeAll(all));
    assert NonEmpty(["", "webdav"]) == ["webdav"] by {
      assert ["", "webdav"][1..] == ["webdav"] && ["webdav"][1..] == [];
    }
    if isDir {
      assert body + "/" == body + ['/'] + "";
      SplitConcat(body, "", '/');
      assert Split("", '/') == [""];
      NonEmptyConcat(parts, [""]);
      assert NonEmpty([""]) == [] by { assert [""][1..] == []; }
    } else {
      assert body + "" == body;
    }
  }

  lemma BodyJoins(encoded: seq<string>)
    requires encoded != []
    ensures Join(["/webdav"] + encoded, '/') == Join(["", "webdav"] + encoded, '/')
  {}

  /** Parsing a printed path gives back the texts of the non-empty ones of the slug and the segments. */
  lemma ParseHref(slug: string, segments: seq<string>, isDir: bool)
    requires IsBytes(slug) && AllBytes(segments)
    ensures ParseMountPath(Href(slug, segments, isDir)) ==
      (var all := LossyAll(NonEmpty([slug] + segments)); if all == [] then Err(()) else Ok((all[0], all[1..])))
  {
    var all := [slug] + segments;
    var encoded := NonEmpty(EncodeAll(all));
    HrefSplits(slug, segments, isDir);
    DecodeNonEmpty(all);
    PartsDecode(encoded, LossyAll(NonEmpty(all)));
  }

  lemma PartsDecode(encoded: seq<string>, plain: seq<string>)
    requires PathTexts(encoded) == plain && |encoded| == |plain|
    ensures encoded != [] ==>
      var parts := ["webdav"] + encoded;
      PathText(parts[1]) == plain[0] && PathTexts(parts[2..]) == plain[1..]
  {
    if encoded != [] {
      var parts := ["webdav"] + encoded;
      assert parts[1] == encoded[0] && parts[2..] == encoded[1..];
      assert PathTexts(encoded) == [PathText(encoded[0])] + PathTexts(encoded[1..]);
    }
  }

  lemma {:induction false} NonEmptyIsAll(parts: seq<string>)
    ensures |NonEmpty(parts)| <= |parts|
    ensures NonEmpty(parts) == parts <==> forall i :: 0 <= i < |parts| ==> parts[i] != []
    ensures NonEmpty(parts) != parts ==> |NonEmpty(parts)| < |parts|
  {
    if parts != [] {
      NonEmptyIsAll(parts[1..]);
      if NonEmpty(parts) == parts {
        assert NonEmpty(parts)[1..] == NonEmpty(parts[1..]) by { assert parts[0] != []; }
        forall i | 0 <= i < |parts| ensures parts[i] != [] { if i > 0 { assert parts[i] == parts[1..][i - 1]; } }
      }
    }
  }

  /** A segment that survives the round trip: some text, which every string of the program is. */
  predicate IsSegment(s: string) {
    s != [] && IsUtf8(s)
  }

  lemma KeptAreTexts(parts: seq<string>)
    ensures LossyAll(NonEmpty(parts)) == parts <==> forall i :: 0 <= i < |parts| ==> IsSegment(parts[i])
  {
    NonEmptyIsAll(parts);
    forall i | 0 <= i < |parts| ensures Lossy(parts[i]) == parts[i] <==> IsUtf8(parts[i]) {
      LossyIsIdentityExactly(parts[i]);
    }
    if LossyAll(NonEmpty(parts)) == parts {
      assert |NonEmpty(parts)| == |parts|;
      forall i | 0 <= i < |parts| ensures IsSegment(parts[i]) { assert Lossy(parts[i]) == parts[i]; }
    }
  }

  /** Parsing undoes printing exactly when the slug and every segment is non-empty and well-formed
      text. */
  lemma ParseUndoesHrefExactly(slug: string, segments: seq<string>, isDir: bool)
    requires IsBytes(slug) && AllBytes(segments)
    ensures ParseMountPath(Href(slug, segments, isDir)) == Ok((slug, segments))
      <==> IsSegment(slug) && forall i :: 0 <= i < |segments| ==> IsSegment(segments[i])
  {
    var all := [slug] + segments;
    ParseHref(slug, segments, isDir);
    KeptAreTexts(all);
    assert all[1..] == segments;
    if IsSegment(slug) && forall i :: 0 <= i < |segments| ==> IsSegment(segments[i]) {
      forall i | 0 <= i < |all| ensures IsSegment(all[i]) {}
    }
    var kept := LossyAll(NonEmpty(all));
    if kept != [] && kept[0] == slug && kept[1..] == segments {
      assert kept == all;
      assert IsSegment(all[0]) && forall i :: 0 <= i < |segments| ==> segments[i] == all[i + 1];
    }
  }

  // -- XML escaping -----------------------------------------------------------

  /** `s.replace(c, by)`. */
  function Replace(s: string, c: char, by_: string): string {
    if s == [] then [] else (if s[0] == c then by_ else [s[0]]) + Replace(s[1..], c, by_)
  }

  /** Five replacements one after the other, the ampersand first. */
  function XmlEscape(s: string): string {
    var angled := Replace(Replace(Replace(s, '&', "&amp;"), '<', "&lt;"), '>', "&gt;");
    Replace(Replace(angled, '"', "&quot;"), '\'', "&apos;")
  }

  function EscapeChar(c: char): string {
    match c
    case '&' => "&amp;"
    case '<' => "&lt;"
    case '>' => "&gt;"
    case '"' => "&quot;"
    case '\'' => "&apos;"
    case _ => [c]
  }

  function EscapeAll(s: string): string {
    if s == [] then [] else EscapeChar(s[0]) + EscapeAll(s[1..])
  }

  lemma {:induction false} ReplaceConcat(a: string, b: string, c: char, by_: string)
    ensures Replace(a + b, c, by_) == Replace(a, c, by_) + Replace(b, c, by_)
  {
    if a == [] {
      assert a + b == b;
    } else {
      assert (a + b)[1..] == a[1..] + b;
      ReplaceConcat(a[1..], b, c, by_);
    }
  }

  lemma {:induction false} ReplaceAbsent(a: string, c: char, by_: string)
    requires c !in a
    ensures Replace(a, c, by_) == a
  {
    if a != [] {
      assert a[0] in a && forall x :: x in a[1..] ==> x in a;
      ReplaceAbsent(a[1..], c, by_);
    }
  }

  lemma ReplaceOne(c: char, d: char, by_: string)
    ensures Replace([c], d, by_) == if c == d then by_ else [c]
  {}

  /** Text without the last four replaced characters passes their replacements unchanged. */
  lemma StableFrom(e: string)
    requires '<' !in e && '>' !in e && '"' !in e && '\'' !in e
    ensures Replace(e, '<', "&lt;") == e && Replace(e, '>', "&gt;") == e
    ensures Replace(e, '"', "&quot;") == e && Replace(e, '\'', "&apos;") == e
  {
    ReplaceAbsent(e, '<', "&lt;");
    ReplaceAbsent(e, '>', "&gt;");
    ReplaceAbsent(e, '"', "&quot;");
    ReplaceAbsent(e, '\'', "&apos;");
  }

  lemma EscapeOneChar(c: char)
    ensures XmlEscape([c]) == EscapeChar(c)
  {
    ReplaceOne(c, '&', "&amp;");
    if c == '&' {
      StableFrom("&amp;");
    } else {
      ReplaceOne(c, '<', "&lt;");
      if c == '<' {
        StableFrom("&lt;");
      } else {
        ReplaceOne(c, '>', "&gt;");
        if c == '>' {
          StableFrom("&gt;");
        } else {
          ReplaceOne(c, '"', "&quot;");
          if c == '"' { StableFrom("&quot;"); } else { ReplaceOne(c, '\'', "&apos;"); }
        }
      }
    }
  }

  lemma EscapeConcat(a: string, b: string)
    ensures XmlEscape(a + b) == XmlEscape(a) + XmlEscape(b)
  {
    ReplaceConcat(a, b, '&', "&amp;");
    var a1, b1 := Replace(a, '&', "&amp;"), Replace(b, '&', "&amp;");
    ReplaceConcat(a1, b1, '<', "&lt;");
    var a2, b2 := Replace(a1, '<', "&lt;"), Replace(b1, '<', "&lt;");
    ReplaceConcat(a2, b2, '>', "&gt;");
    var a3, b3 := Replace(a2, '>', "&gt;"), Replace(b2, '>', "&gt;");
    ReplaceConcat(a3, b3, '"', "&quot;");
    var a4, b4 := Replace(a3, '"', "&quot;"), Replace(b3, '"', "&quot;");
    ReplaceConcat(a4, b4, '\'', "&apos;");
  }

  /** The five replacements in this order escape every character once: no entity is escaped again. */
  lemma {:induction false} XmlEscapeIsOnePass(s: string)
    ensures XmlEscape(s) == EscapeAll(s)
  {
    if s != [] {
      assert s == [s[0]] + s[1..];
      EscapeConcat([s[0]], s[1..]);
      EscapeOneChar(s[0]);
      XmlEscapeIsOnePass(s[1..]);
    }
  }

  /** An input for which parsing does not undo printing: the empty segment of `a//` is lost. */
  lemma EmptySegmentIsLost()
    ensures ParseMountPath(Href("a", [""], true)) == Ok(("a", []))
  {
    ParseHref("a", [""], true);
    assert ["a"] + [""] == ["a", ""] && ["a", ""][1..] == [""] && [""][1..] == [];
    assert NonEmpty(["a", ""]) == ["a"];
    LetterIsText();
  }

  lemma LetterIsText()
    ensures LossyAll(["a"]) == ["a"]
  {
    assert IsUtf8("a") by { assert Scan("a") == Chunk(1, true) && "a"[1..] == []; }
    LossyKeepsUtf8("a");
  }
}
