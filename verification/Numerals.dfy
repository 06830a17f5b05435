/** Decimal rendering with sign-aware zero padding, and reading it back. */
module Numerals {

  predicate IsDigit(c: char) { '0' <= c <= '9' }

  function DigitChar(d: int): (c: char)
    requires 0 <= d < 10
    ensures IsDigit(c) && c as int == '0' as int + d
  {
    ('0' as int + d) as char
  }

  function Digits(n: nat): (s: string)
    ensures s != [] && forall i :: 0 <= i < |s| ==> IsDigit(s[i])
  {
    if n < 10 then [DigitChar(n)] else Digits(n / 10) + [DigitChar(n % 10)]
  }

  function Zeros(k: nat): (s: string)
    ensures |s| == k && forall i :: 0 <= i < |s| ==> s[i] == '0'
  {
    seq(k, _ => '0')
  }

  /** Zero-padded on the left to at least `width` digits. */
  function Padded(n: nat, width: int): string {
    if |Digits(n)| < width then Zeros(width - |Digits(n)|) + Digits(n) else Digits(n)
  }

  /** A signed number padded to `pad` characters; the sign counts as one. */
  function Format(value: int, pad: nat): string {
    if value < 0 then "-" + Padded(-value, pad - 1) else Padded(value, pad)
  }

  function Read(s: string): int
    requires forall i :: 0 <= i < |s| ==> IsDigit(s[i])
  {
    if s == [] then 0 else 10 * Read(s[..|s| - 1]) + (s[|s| - 1] as int - '0' as int)
  }

  lemma {:induction false} ReadDigits(n: nat)
    ensures Read(Digits(n)) == n
  {
    if n >= 10 {
      ReadDigits(n / 10);
      assert Digits(n)[..|Digits(n)| - 1] == Digits(n / 10);
    }
  }

  lemma {:induction false} ReadZeros(k: nat, s: string)
    requires forall i :: 0 <= i < |s| ==> IsDigit(s[i])
    ensures Read(Zeros(k) + s) == Read(s)
  {
    var t := Zeros(k) + s;
    if s != [] {
      assert t[..|t| - 1] == Zeros(k) + s[..|s| - 1];
      ReadZeros(k, s[..|s| - 1]);
    } else if k > 0 {
      assert t == Zeros(k) && t[..k - 1] == Zeros(k - 1) + [];
      ReadZeros(k - 1, []);
    }
  }

  lemma ReadPadded(n: nat, width: int)
    ensures var s := Padded(n, width);
            s != [] && |s| >= width && (forall i :: 0 <= i < |s| ==> IsDigit(s[i])) && Read(s) == n
  {
    ReadDigits(n);
    if |Digits(n)| < width { ReadZeros(width - |Digits(n)|, Digits(n)); }
  }

  /** The number a rendering denotes. */
  function Denotes(s: string): int
    requires forall i :: 0 <= i < |s| ==> IsDigit(s[i]) || (i == 0 && s[i] == '-')
  {
    if s != [] && s[0] == '-' then -Read(s[1..]) else Read(s)
  }

  /** Reading undoes rendering, whatever the padding, and the padding is reached. */
  lemma FormatRoundTrip(value: int, pad: nat)
    ensures var s := Format(value, pad);
            (forall i :: 0 <= i < |s| ==> IsDigit(s[i]) || (i == 0 && s[i] == '-')) && Denotes(s) == value && |s| >= pad
  {
    if value < 0 {
      ReadPadded(-value, pad - 1);
      assert Format(value, pad)[1..] == Padded(-value, pad - 1);
    } else {
      ReadPadded(value, pad);
      assert Padded(value, pad)[0] != '-';
    }
  }

  lemma {:induction false} NoLeadingZero(n: nat)
    ensures |Digits(n)| == 1 || Digits(n)[0] != '0'
  {
    if n >= 10 { NoLeadingZero(n / 10); }
  }

  /** Nothing but the padding is added: a rendering longer than it has no leading zero, and exactly the
      negative numbers have a sign. */
  lemma FormatIsShortest(value: int, pad: nat)
    ensures var s := Format(value, pad);
            var sign := if value < 0 then 1 else 0;
            (s != [] && s[0] == '-' <==> value < 0)
            && (|s| > pad ==> |s| == sign + 1 || (|s| > sign && s[sign] != '0'))
  {
    NoLeadingZero(if value < 0 then -value else value);
    FormatRoundTrip(value, pad);
    if value < 0 { ReadPadded(-value, pad - 1); } else { ReadPadded(value, pad); }
  }

  /** Renderings tell numbers apart, even under different paddings. */
  lemma FormatInjective(a: int, b: int, padA: nat, padB: nat)
    requires Format(a, padA) == Format(b, padB)
    ensures a == b
  {
    FormatRoundTrip(a, padA);
    FormatRoundTrip(b, padB);
  }
}
