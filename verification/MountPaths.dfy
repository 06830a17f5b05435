/** What the decoder makes of any text, and which paths name a mount. */
module MountPaths {
  import opened WebDav
  import opened Text
  import opened Wrappers

  // -- Decoding any text ------------------------------------------------------

  const LOWER := "0123456789abcdef"
  const UPPER := "0123456789ABCDEF"

  /** Either case. */
  predicate IsHexDigit(c: char, n: nat) {
    n < 16 && (c == LOWER[n] || c == UPPER[n])
  }

  lemma HexValExact(c: char, n: nat)
    ensures HexVal(c) == Some(n) <==> IsHexDigit(c, n)
  {
    if n < 10 { DigitAt(n); } else if n < 16 { LetterAt(n); }
  }

  lemma DigitAt(n: nat)
    requires n < 10
    ensures LOWER[n] == UPPER[n] == ('0' as int + n) as char
  {}

  lemma LetterAt(n: nat)
    requires 10 <= n < 16
    ensures LOWER[n] == ('a' as int + n - 10) as char && UPPER[n] == ('A' as int + n - 10) as char
  {}

  ghost predicate IsHex(c: char) {
    exists n: nat :: IsHexDigit(c, n)
  }

  /** A percent sign with two hex digits after it. */
  ghost predicate IsEscape(s: string, i: nat) {
    i + 2 < |s| && s[i] == '%' && IsHex(s[i + 1]) && IsHex(s[i + 2])
  }

  lemma EscapeByValues(s: string)
    requires s != []
    ensures IsEscape(s, 0) <==> s[0] == '%' && |s| > 2 && HexVal(s[1]).Some? && HexVal(s[2]).Some?
  {
    if |s| > 2 {
      if HexVal(s[1]).Some? { HexValExact(s[1], HexVal(s[1]).value); }
      if HexVal(s[2]).Some? { HexValExact(s[2], HexVal(s[2]).value); }
      if IsEscape(s, 0) {
        var h: nat :| IsHexDigit(s[1], h);
        var l: nat :| IsHexDigit(s[2], l);
        HexValExact(s[1], h);
        HexValExact(s[2], l);
      }
    }
  }

  lemma RestHasNoEscape(s: string)
    requires s != [] && forall i: nat :: !IsEscape(s, i)
    ensures forall i: nat :: !IsEscape(s[1..], i)
  {
    forall i: nat ensures !IsEscape(s[1..], i) { assert !IsEscape(s, i + 1); }
  }

  /** Text without an escape is left alone: a percent sign before anything else stands for itself. */
  lemma {:induction false} UnescapedIsKept(s: string)
    requires forall i: nat :: !IsEscape(s, i)
    ensures Decode(s) == s
  {
    if s != [] {
      RestHasNoEscape(s);
      UnescapedIsKept(s[1..]);
      EscapeByValues(s);
      DecodeStep(s);
    }
  }

  /** The first escape of a text gives one byte, the first digit the high half; decoding goes on behind it. */
  lemma {:induction false} FirstEscape(a: string, h: char, l: char, rest: string, high: nat, low: nat)
    requires IsHexDigit(h, high) && IsHexDigit(l, low)
    requires forall i: nat :: i < |a| ==> !IsEscape(a + ['%', h, l] + rest, i)
    ensures Decode(a + ['%', h, l] + rest) == a + [(16 * high + low) as char] + Decode(rest)
  {
    var s := a + ['%', h, l] + rest;
    if a == [] {
      HexValExact(h, high);
      HexValExact(l, low);
      assert s[0] == '%' && s[1] == h && s[2] == l && s[3..] == rest;
      DecodeStep(s);
    } else {
      var tail := a[1..] + ['%', h, l] + rest;
      assert s[1..] == tail;
      forall i: nat | i < |a[1..]| ensures !IsEscape(tail, i) {
        assert !IsEscape(s, i + 1);
        if i + 2 < |tail| { assert tail[i] == s[i + 1] && tail[i + 1] == s[i + 2] && tail[i + 2] == s[i + 3]; }
      }
      FirstEscape(a[1..], h, l, rest, high, low);
      assert !IsEscape(s, 0);
      EscapeByValues(s);
      DecodeStep(s);
    }
  }

  // -- What is printed --------------------------------------------------------

  /** Letters, digits and four marks (section 2.3 of RFC 3986). */
  predicate StandsForItself(b: char) {
    'A' <= b <= 'Z' || 'a' <= b <= 'z' || '0' <= b <= '9' || b in "-._~"
  }

  lemma UpperDigit(n: nat)
    requires n < 16
    ensures HexDigit(n) == UPPER[n]
  {
    if n < 10 { DigitAt(n); } else { LetterAt(n); }
  }

  /** Byte by byte: an unreserved character stands for itself, any other byte is a percent sign and its two
      upper-case digits. */
  lemma EncodeByByte(s: string, b: char)
    requires IsBytes(s) && b < 256 as char && IsBytes(s + [b])
    ensures Encode([]) == []
    ensures Encode(s + [b]) == Encode(s)
      + if StandsForItself(b) then [b] else ['%', UPPER[b as int / 16], UPPER[b as int % 16]]
  {
    EncodeAppend(s, b);
    UpperDigit(b as int / 16);
    UpperDigit(b as int % 16);
  }

  lemma Regroup(a: string, b: string, c: string)
    ensures a + b + c == a + (b + c) && a + b + c + "" == a + b + c
  {}

  lemma MountFirst(rest: seq<string>)
    requires rest != []
    ensures Join(["", "webdav"] + rest, '/') == "/webdav/" + Join(rest, '/')
  {
    JoinConcat(["", "webdav"], rest, '/');
    assert ["", "webdav"][1..] == ["webdav"];
    assert Join(["webdav"], '/') == "webdav";
    assert Join(["", "webdav"], '/') == "/webdav";
  }

  lemma AfterTheMount(slug: string, segments: seq<string>)
    requires IsBytes(slug) && AllBytes(segments)
    ensures "/webdav/" + (Encode(slug) + Tail(segments))
         == Join(["", "webdav"] + ([Encode(slug)] + EncodeAll(segments)), '/')
  {
    TailIsJoin(Encode(slug), segments);
    MountFirst([Encode(slug)] + EncodeAll(segments));
  }

  /** A printed path is the mount's name, the encoded slug and the encoded segments, each after a slash, and
      one more slash for a directory. */
  lemma HrefReads(slug: string, segments: seq<string>)
    requires IsBytes(slug) && AllBytes(segments)
    ensures Href(slug, segments, false) == Join(["", "webdav"] + ([Encode(slug)] + EncodeAll(segments)), '/')
    ensures Href(slug, segments, true) == Href(slug, segments, false) + "/"
  {
    AfterTheMount(slug, segments);
    Regroup("/webdav/", Encode(slug), Tail(segments));
  }

  // -- Mount paths ------------------------------------------------------------

  /** The parts that count of two paths joined by a slash. */
  lemma JoinedParts(a: string, b: string)
    ensures NonEmpty(Split(a + "/" + b, '/')) == NonEmpty(Split(a, '/')) + NonEmpty(Split(b, '/'))
  {
    SplitConcat(a, b, '/');
    assert a + "/" + b == a + ['/'] + b;
    NonEmptyConcat(Split(a, '/'), Split(b, '/'));
  }

  /** A slash in front adds no part. */
  lemma LeadingSlash(a: string)
    ensures NonEmpty(Split("/" + a, '/')) == NonEmpty(Split(a, '/'))
  {
    JoinedParts("", a);
    assert "" + "/" + a == "/" + a && [""][1..] == [];
  }

  lemma TrailingSlash(a: string)
    ensures NonEmpty(Split(a + "/", '/')) == NonEmpty(Split(a, '/'))
  {
    JoinedParts(a, "");
    assert a + "/" + "" == a + "/" && [""][1..] == [];
  }

  /** A doubled slash counts once. */
  lemma InnerSlashes(a: string, b: string)
    ensures NonEmpty(Split(a + "//" + b, '/')) == NonEmpty(Split(a + "/" + b, '/'))
  {
    JoinedParts(a, b);
    JoinedParts(a, "/" + b);
    LeadingSlash(b);
    assert a + "/" + ("/" + b) == a + "//" + b;
  }

  lemma SameParts(p: string, q: string)
    requires NonEmpty(Split(p, '/')) == NonEmpty(Split(q, '/'))
    ensures ParseMountPath(p) == ParseMountPath(q)
  {}

  /** Slashes at the ends of a path and repeated ones inside do not count. */
  lemma SlashesCollapse(a: string, b: string)
    ensures ParseMountPath("/" + a) == ParseMountPath(a) == ParseMountPath(a + "/")
    ensures ParseMountPath(a + "//" + b) == ParseMountPath(a + "/" + b)
  {
    assert ParseMountPath("/" + a) == ParseMountPath(a) by { LeadingSlash(a); SameParts("/" + a, a); }
    assert ParseMountPath(a + "/") == ParseMountPath(a) by { TrailingSlash(a); SameParts(a + "/", a); }
    InnerSlashes(a, b);
    SameParts(a + "//" + b, a + "/" + b);
  }

  lemma {:induction false} TextsAt(parts: seq<string>, i: nat)
    requires i < |parts|
    ensures |PathTexts(parts)| == |parts| && PathTexts(parts)[i] == PathText(parts[i])
  {
    if i > 0 { TextsAt(parts[1..], i - 1); } else if |parts| > 1 { TextsAt(parts[1..], 0); }
  }

  /** A path of non-empty parts is found exactly when its first part is the mount's name and a second
      follows: the second is the slug and the others are the segments, in order and as text. */
  lemma MountExactly(parts: seq<string>)
    requires parts != [] && Free(parts, '/') && forall i :: 0 <= i < |parts| ==> parts[i] != []
    ensures var r := ParseMountPath(Join(parts, '/'));
      && (r.Ok? <==> |parts| >= 2 && parts[0] == "webdav")
      && (r.Ok? ==> r.value.0 == PathText(parts[1]) && |r.value.1| == |parts| - 2)
      && (r.Ok? ==> forall i :: 0 <= i < |parts| - 2 ==> r.value.1[i] == PathText(parts[i + 2]))
  {
    SplitJoin(parts, '/');
    NonEmptyIsAll(parts);
    if |parts| > 2 {
      forall i | 0 <= i < |parts| - 2 ensures |PathTexts(parts[2..])| == |parts| - 2
        && PathTexts(parts[2..])[i] == PathText(parts[i + 2])
      {
        TextsAt(parts[2..], i);
      }
      TextsAt(parts[2..], 0);
    }
  }
}
