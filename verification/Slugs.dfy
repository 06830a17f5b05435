/** What a slug keeps of the text it was made from. */
module Slugs {
  import opened Tags

  predicate HasAlphanumeric(s: string) {
    exists i :: 0 <= i < |s| && IsAlphanumeric(s[i])
  }

  /** The letters and digits in order. */
  function Alphanumerics(s: string): string {
    if s == [] then []
    else Alphanumerics(s[..|s| - 1]) + (if IsAlphanumeric(s[|s| - 1]) then [s[|s| - 1]] else [])
  }

  function Underscores(n: nat): string {
    seq(n, _ => '_')
  }

  lemma {:induction false} SqueezedEnd(raw: string, after: bool)
    ensures EndsInUnderscore(Squeeze(raw, after), after)
      <==> if raw == [] then after else !IsAlphanumeric(raw[|raw| - 1])
  {
    if raw != [] {
      var next := if IsLabelChar(raw[0]) then raw[0] == '_' else true;
      SqueezedEnd(raw[1..], next);
    }
  }

  /** An allowed character is appended as it is; another one appends an underscore exactly when it is the
      first character or follows a letter or digit. */
  function Appended(raw: string, c: char): string {
    if IsLabelChar(c) then [c]
    else if raw == [] || IsAlphanumeric(raw[|raw| - 1]) then "_"
    else ""
  }

  lemma SqueezeGrows(raw: string, c: char)
    ensures Squeeze(raw + [c], false) == Squeeze(raw, false) + Appended(raw, c)
  {
    SqueezedEnd(raw, false);
    SqueezeAppend(raw, false, c);
  }

  lemma {:induction false} AlphanumericsAppend(a: string, b: string)
    ensures Alphanumerics(a + b) == Alphanumerics(a) + Alphanumerics(b)
  {
    if b == [] {
      assert a + b == a;
    } else {
      var n := |b| - 1;
      assert (a + b)[..|a + b| - 1] == a + b[..n];
      AlphanumericsAppend(a, b[..n]);
    }
  }

  lemma AppendedAlphanumerics(raw: string, c: char)
    ensures Alphanumerics(Appended(raw, c)) == Alphanumerics([c])
  {
    assert [c][..0] == [] && "_"[..0] == [];
  }

  lemma {:induction false} SqueezeKeepsAlphanumerics(raw: string)
    ensures Alphanumerics(Squeeze(raw, false)) == Alphanumerics(raw)
  {
    if raw != [] {
      var init, c := raw[..|raw| - 1], raw[|raw| - 1];
      assert raw == init + [c];
      SqueezeKeepsAlphanumerics(init);
      SqueezeGrows(init, c);
      AppendedAlphanumerics(init, c);
      AlphanumericsAppend(Squeeze(init, false), Appended(init, c));
      AlphanumericsAppend(init, [c]);
    }
  }

  lemma {:induction false} NoAlphanumerics(s: string)
    ensures Alphanumerics(s) == [] <==> !HasAlphanumeric(s)
  {
    if s != [] {
      var n := |s| - 1;
      NoAlphanumerics(s[..n]);
      if HasAlphanumeric(s[..n]) {
        var i :| 0 <= i < n && IsAlphanumeric(s[..n][i]);
        assert IsAlphanumeric(s[i]);
      }
      if HasAlphanumeric(s) && !IsAlphanumeric(s[n]) {
        var i :| 0 <= i < |s| && IsAlphanumeric(s[i]);
        assert IsAlphanumeric(s[..n][i]);
      }
    }
  }

  lemma {:induction false} UnderscoresHaveNone(n: nat)
    ensures Alphanumerics(Underscores(n)) == []
  {
    if n > 0 {
      assert Underscores(n)[..n - 1] == Underscores(n - 1);
      UnderscoresHaveNone(n - 1);
    }
  }

  lemma {:induction false} TrimmedStart(s: string) returns (a: nat)
    ensures s == Underscores(a) + TrimUnderscoresStart(s)
  {
    if s != [] && s[0] == '_' {
      var n := TrimmedStart(s[1..]);
      a := n + 1;
      assert s == ['_'] + s[1..] && Underscores(a) == ['_'] + Underscores(n);
    } else {
      a := 0;
    }
  }

  lemma {:induction false} TrimmedEnd(s: string) returns (b: nat)
    ensures s == TrimUnderscoresEnd(s) + Underscores(b)
  {
    if s != [] && s[|s| - 1] == '_' {
      var n := TrimmedEnd(s[..|s| - 1]);
      b := n + 1;
      assert s == s[..|s| - 1] + ['_'] && Underscores(b) == Underscores(n) + ['_'];
    } else {
      b := 0;
    }
  }

  /** Trimming takes underscores off both ends and keeps the letters and digits. */
  lemma Trimmed(s: string) returns (a: nat, b: nat)
    ensures s == Underscores(a) + TrimUnderscores(s) + Underscores(b)
    ensures Alphanumerics(TrimUnderscores(s)) == Alphanumerics(s)
  {
    var start := TrimUnderscoresStart(s);
    a := TrimmedStart(s);
    b := TrimmedEnd(start);
    UnderscoresHaveNone(a);
    UnderscoresHaveNone(b);
    AlphanumericsAppend(Underscores(a), start);
    AlphanumericsAppend(TrimUnderscores(s), Underscores(b));
  }

  /** A text with a letter or digit: the slug is what the characters append, without the underscores at
      the ends, and holds the same letters and digits in the same order. A text without one has the
      fixed name. */
  lemma SlugReads(raw: string)
    ensures HasAlphanumeric(raw) ==>
      && (exists a: nat, b: nat :: Squeeze(raw, false) == Underscores(a) + Slug(raw) + Underscores(b))
      && Alphanumerics(Slug(raw)) == Alphanumerics(raw)
    ensures !HasAlphanumeric(raw) ==> Slug(raw) == "untitled"
  {
    var squeezed := Squeeze(raw, false);
    var slug := TrimUnderscores(squeezed);
    SqueezeChars(raw, false);
    TrimStartChars(squeezed);
    TrimEndChars(TrimUnderscoresStart(squeezed));
    assert slug != [] ==> IsAlphanumeric(slug[0]);
    NoAlphanumerics(slug);
    NoAlphanumerics(raw);
    var a, b := Trimmed(squeezed);
    SqueezeKeepsAlphanumerics(raw);
  }
}
