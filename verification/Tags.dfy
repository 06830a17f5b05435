/** Tag paths: the dotted string operations of the code, proved to be operations on label sequences. */
module Tags {
  import opened Wrappers
  import opened Text

  /** A tag path in dotted form. */
  datatype TagPath = TagPath(ltree: string)

  /** The meaning of a dotted path: its labels from the root down. */
  function Labels(p: TagPath): (labels: seq<string>)
    ensures labels != []
  {
    Split(p.ltree, '.')
  }

  function FromLabels(labels: seq<string>): TagPath {
    TagPath(Join(labels, '.'))
  }

  lemma LabelsInjective(p: TagPath, q: TagPath)
    requires Labels(p) == Labels(q)
    ensures p == q
  {
    SplitInjective(p.ltree, q.ltree, '.');
  }

  lemma FromLabelsInverse(labels: seq<string>)
    requires labels != [] && Free(labels, '.')
    ensures Labels(FromLabels(labels)) == labels
  {
    SplitJoin(labels, '.');
  }

  // -- Characters -------------------------------------------------------------

  predicate IsDigit(c: char) { '0' <= c <= '9' }

  predicate IsAlphanumeric(c: char) {
    IsDigit(c) || 'a' <= c <= 'z' || 'A' <= c <= 'Z'
  }

  predicate IsLabelChar(c: char) {
    IsAlphanumeric(c) || c == '_'
  }

  /** The characters with the Unicode property White_Space. */
  predicate IsWhitespace(c: char) {
    var n := c as int;
    9 <= n <= 13 || n == 0x20 || n == 0x85 || n == 0xA0 || n == 0x1680 || 0x2000 <= n <= 0x200A
    || n == 0x2028 || n == 0x2029 || n == 0x202F || n == 0x205F || n == 0x3000
  }

  predicate IsLabel(s: string) {
    s != [] && forall i :: 0 <= i < |s| ==> IsLabelChar(s[i])
  }

  predicate AreLabels(labels: seq<string>) {
    labels != [] && forall i :: 0 <= i < |labels| ==> IsLabel(labels[i])
  }

  predicate IsValid(p: TagPath) {
    AreLabels(Labels(p))
  }

  // -- Parsing ----------------------------------------------------------------

  function TrimStart(s: string): string {
    if s != [] && IsWhitespace(s[0]) then TrimStart(s[1..]) else s
  }

  function TrimEnd(s: string): string {
    if s != [] && IsWhitespace(s[|s| - 1]) then TrimEnd(s[..|s| - 1]) else s
  }

  function Trim(s: string): string {
    TrimEnd(TrimStart(s))
  }

  predicate IsReservedPrefix(path: string) {
    path == "SharedToMe" || "SharedToMe." <= path
  }

  datatype ParseError = EmptyPath | EmptySegment | InvalidCharacters(segment: string) | Reserved

  /** The first offending segment, if any. */
  function CheckSegments(segments: seq<string>): Option<ParseError> {
    if segments == [] then None
    else if segments[0] == [] then Some(EmptySegment)
    else if !IsLabel(segments[0]) then Some(InvalidCharacters(segments[0]))
    else CheckSegments(segments[1..])
  }

  function Parse(raw: string, allowProtected: bool): Result<TagPath, ParseError> {
    var stripped := Trim(raw);
    if stripped == [] then Err(EmptyPath)
    else match CheckSegments(Split(stripped, '.'))
         case Some(e) => Err(e)
         case None =>
           if !allowProtected && IsReservedPrefix(stripped) then Err(Reserved) else Ok(TagPath(stripped))
  }

  lemma {:induction false} CheckSegmentsExact(segments: seq<string>)
    ensures CheckSegments(segments).None? <==> forall i :: 0 <= i < |segments| ==> IsLabel(segments[i])
  {
    if segments != [] {
      CheckSegmentsExact(segments[1..]);
      if CheckSegments(segments).None? {
        forall i | 0 <= i < |segments| ensures IsLabel(segments[i]) {
          if i > 0 { assert segments[i] == segments[1..][i - 1]; }
        }
      }
    }
  }

  /** A dotless first label is a string prefix up to the first dot or the end. */
  lemma FirstLabel(p: TagPath, s: string)
    requires '.' !in s
    ensures p.ltree == s || s + ['.'] <= p.ltree <==> Labels(p)[0] == s
  {
    SplitWhole(s, '.');
    if s + ['.'] <= p.ltree {
      var rest := p.ltree[|s| + 1..];
      assert p.ltree == s + ['.'] + rest;
      SplitConcat(s, rest, '.');
    }
    if Labels(p)[0] == s {
      JoinSplit(p.ltree, '.');
      if |Labels(p)| > 1 {
        assert p.ltree == s + ['.'] + Join(Labels(p)[1..], '.');
      }
    }
  }

  /** The reserved test on strings is a test on the first label. */
  lemma ReservedIsFirstLabel(p: TagPath)
    ensures IsReservedPrefix(p.ltree) <==> Labels(p)[0] == "SharedToMe"
  {
    assert "SharedToMe" + ['.'] == "SharedToMe.";
    FirstLabel(p, "SharedToMe");
  }

  /** Parsing accepts a string exactly when its trimmed form is a sequence of valid labels whose
      first is not reserved, and returns that form unchanged. */
  lemma ParseExact(raw: string, allowProtected: bool)
    ensures Parse(raw, allowProtected).Ok?
      <==> IsValid(TagPath(Trim(raw))) && (allowProtected || Labels(TagPath(Trim(raw)))[0] != "SharedToMe")
    ensures Parse(raw, allowProtected).Ok? ==> Parse(raw, allowProtected).value == TagPath(Trim(raw))
  {
    var p := TagPath(Trim(raw));
    CheckSegmentsExact(Labels(p));
    ReservedIsFirstLabel(p);
  }

  lemma {:induction false} ValidHasLabelChars(p: TagPath)
    requires IsValid(p)
    ensures p.ltree != [] && forall i :: 0 <= i < |p.ltree| ==> IsLabelChar(p.ltree[i]) || p.ltree[i] == '.'
  {
    JoinSplit(p.ltree, '.');
    JoinChars(Labels(p));
  }

  lemma {:induction false} JoinChars(labels: seq<string>)
    requires AreLabels(labels)
    ensures var s := Join(labels, '.'); s != [] && forall i :: 0 <= i < |s| ==> IsLabelChar(s[i]) || s[i] == '.'
  {
    if |labels| > 1 { JoinChars(labels[1..]); }
  }

  /** A valid path is its own trimmed form, so feeding a parsed path back parses to itself. */
  lemma ParseIsIdempotent(p: TagPath)
    requires IsValid(p)
    ensures Trim(p.ltree) == p.ltree
    ensures Parse(p.ltree, true) == Ok(p)
  {
    ValidHasLabelChars(p);
    ParseExact(p.ltree, true);
  }

  // -- Ancestry ---------------------------------------------------------------

  predicate IsAncestorOf(p: TagPath, q: TagPath) {
    p.ltree + "." <= q.ltree
  }

  predicate IsAncestorOrSelf(p: TagPath, q: TagPath) {
    p == q || IsAncestorOf(p, q)
  }

  function Depth(p: TagPath): nat {
    |Split(p.ltree, '.')|
  }

  /** The string prefix test is the proper-prefix test on labels, for all strings. */
  lemma AncestorIsProperPrefix(p: TagPath, q: TagPath)
    ensures IsAncestorOf(p, q) <==> Labels(p) < Labels(q)
    ensures IsAncestorOrSelf(p, q) <==> Labels(p) <= Labels(q)
  {
    var a, b := Labels(p), Labels(q);
    JoinSplit(p.ltree, '.');
    JoinSplit(q.ltree, '.');
    if IsAncestorOf(p, q) {
      var rest := q.ltree[|p.ltree| + 1..];
      assert q.ltree == p.ltree + ['.'] + rest;
      SplitConcat(p.ltree, rest, '.');
    }
    if a < b {
      var rest := b[|a|..];
      assert b == a + rest;
      JoinConcat(a, rest, '.');
      assert q.ltree == p.ltree + ['.'] + Join(rest, '.');
    }
    if a == b { LabelsInjective(p, q); }
  }

  lemma AncestryIsTransitive(p: TagPath, q: TagPath, r: TagPath)
    requires IsAncestorOrSelf(p, q) && IsAncestorOrSelf(q, r)
    ensures IsAncestorOrSelf(p, r)
    ensures IsAncestorOf(p, q) ==> IsAncestorOf(p, r) && p != r
  {}

  /** All proper ancestors, root first. */
  function Ancestors(p: TagPath): seq<TagPath> {
    var parts := Split(p.ltree, '.');
    seq(|parts| - 1, i requires 0 <= i < |parts| - 1 => TagPath(Join(parts[..i + 1], '.')))
  }

  /** The i-th ancestor holds the first i+1 labels. */
  lemma AncestorLabels(p: TagPath, i: nat)
    requires i < Depth(p) - 1
    ensures Labels(Ancestors(p)[i]) == Labels(p)[..i + 1]
  {
    SplitFree(p.ltree, '.');
    FromLabelsInverse(Labels(p)[..i + 1]);
  }

  /** The ancestor list holds exactly the paths the prefix test accepts. */
  lemma AncestorsExact(p: TagPath, a: TagPath)
    ensures |Ancestors(p)| == Depth(p) - 1
    ensures a in Ancestors(p) <==> IsAncestorOf(a, p)
  {
    AncestorIsProperPrefix(a, p);
    if IsAncestorOf(a, p) {
      var i := |Labels(a)| - 1;
      AncestorLabels(p, i);
      LabelsInjective(a, Ancestors(p)[i]);
    }
    if a in Ancestors(p) {
      var i :| 0 <= i < |Ancestors(p)| && Ancestors(p)[i] == a;
      AncestorLabels(p, i);
    }
  }

  // -- Slugs ------------------------------------------------------------------

  /** One label character per allowed character, one underscore per run of others that does not
      follow an underscore. */
  function Squeeze(raw: string, afterUnderscore: bool): string {
    if raw == [] then []
    else if IsLabelChar(raw[0]) then [raw[0]] + Squeeze(raw[1..], raw[0] == '_')
    else if afterUnderscore then Squeeze(raw[1..], true)
    else "_" + Squeeze(raw[1..], true)
  }

  function TrimUnderscoresStart(s: string): string {
    if s != [] && s[0] == '_' then TrimUnderscoresStart(s[1..]) else s
  }

  function TrimUnderscoresEnd(s: string): string {
    if s != [] && s[|s| - 1] == '_' then TrimUnderscoresEnd(s[..|s| - 1]) else s
  }

  function TrimUnderscores(s: string): string {
    TrimUnderscoresEnd(TrimUnderscoresStart(s))
  }

  function Slug(raw: string): string {
    var trimmed := TrimUnderscores(Squeeze(raw, false));
    if trimmed == [] then "untitled" else trimmed
  }

  predicate EndsInUnderscore(out: string, before: bool) {
    if out == [] then before else out[|out| - 1] == '_'
  }

  lemma {:induction false} SqueezeAppend(raw: string, after: bool, c: char)
    ensures Squeeze(raw + [c], after)
         == Squeeze(raw, after) + Squeeze([c], EndsInUnderscore(Squeeze(raw, after), after))
  {
    if raw == [] {
      assert raw + [c] == [c];
    } else {
      assert (raw + [c])[1..] == raw[1..] + [c];
      SqueezeAppend(raw[1..], if IsLabelChar(raw[0]) then raw[0] == '_' else true, c);
    }
  }

  /** Coerce any string into a label, one character at a time as the code does. */
  method SlugifyLabel(raw: string) returns (slug: string)
    ensures slug == Slug(raw)
  {
    var out := "";
    var prevUnderscore := false;
    for i := 0 to |raw|
      invariant out == Squeeze(raw[..i], false)
      invariant prevUnderscore <==> out != [] && out[|out| - 1] == '_'
    {
      var ch := raw[i];
      assert raw[..i + 1] == raw[..i] + [ch];
      SqueezeAppend(raw[..i], false, ch);
      if IsLabelChar(ch) {
        out := out + [ch];
        prevUnderscore := ch == '_';
      } else if !prevUnderscore {
        out := out + "_";
        prevUnderscore := true;
      }
    }
    assert raw[..|raw|] == raw;
    var trimmed := TrimUnderscores(out);
    slug := if trimmed == [] then "untitled" else trimmed;
  }

  /** A label with no underscore at either end. */
  predicate IsSlug(s: string) {
    IsLabel(s) && s[0] != '_' && s[|s| - 1] != '_'
  }

  lemma {:induction false} SqueezeChars(raw: string, after: bool)
    ensures forall i :: 0 <= i < |Squeeze(raw, after)| ==> IsLabelChar(Squeeze(raw, after)[i])
    ensures (forall i :: 0 <= i < |raw| ==> IsLabelChar(raw[i])) ==> Squeeze(raw, after) == raw
  {
    if raw != [] {
      SqueezeChars(raw[1..], if IsLabelChar(raw[0]) then raw[0] == '_' else true);
    }
  }

  lemma {:induction false} TrimStartChars(s: string)
    requires forall i :: 0 <= i < |s| ==> IsLabelChar(s[i])
    ensures var t := TrimUnderscoresStart(s);
      (forall i :: 0 <= i < |t| ==> IsLabelChar(t[i])) && (t != [] ==> t[0] != '_')
  {
    if s != [] && s[0] == '_' { TrimStartChars(s[1..]); }
  }

  lemma {:induction false} TrimEndChars(s: string)
    requires forall i :: 0 <= i < |s| ==> IsLabelChar(s[i])
    ensures var t := TrimUnderscoresEnd(s);
      t <= s && (forall i :: 0 <= i < |t| ==> IsLabelChar(t[i])) && (t != [] ==> t[|t| - 1] != '_')
  {
    if s != [] && s[|s| - 1] == '_' { TrimEndChars(s[..|s| - 1]); }
  }

  /** A slug is always a label without outer underscores, and exactly those are their own slug. */
  lemma SlugExact(raw: string)
    ensures IsSlug(Slug(raw))
    ensures Slug(raw) == raw <==> IsSlug(raw)
    ensures Slug(Slug(raw)) == Slug(raw)
  {
    SqueezeChars(raw, false);
    TrimStartChars(Squeeze(raw, false));
    TrimEndChars(TrimUnderscoresStart(Squeeze(raw, false)));
    SqueezeChars(Slug(raw), false);
  }

  /** A slug is a valid one-label path. */
  lemma SlugIsLabel(raw: string)
    ensures IsLabel(Slug(raw)) && '.' !in Slug(raw)
    ensures Parse(Slug(raw), true) == Ok(TagPath(Slug(raw))) && Labels(TagPath(Slug(raw))) == [Slug(raw)]
  {
    SlugExact(raw);
    SplitWhole(Slug(raw), '.');
    ParseIsIdempotent(TagPath(Slug(raw)));
  }
}
