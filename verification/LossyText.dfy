/** What the lossy conversion makes of malformed bytes: one replacement character for each longest start of
    a character, and for each byte that cannot start one (section 3.9 of the Unicode Standard). */
module LossyText {
  import opened Utf8

  /** Some but not all bytes of a character. */
  predicate Starts(p: string, c: int) {
    IsScalar(c) && 0 < |p| < |EncodeScalar(c)| && EncodeScalar(c)[..|p|] == p
  }

  ghost predicate IsStart(p: string) {
    exists c :: Starts(p, c)
  }

  /** A character at the front. */
  predicate Leads(s: string, c: int) {
    IsScalar(c) && EncodeScalar(c) <= s
  }

  ghost predicate IsLed(s: string) {
    exists c :: Leads(s, c)
  }

  /** The first n bytes are the longest start of a character, or one byte where there is none. */
  ghost predicate IsMaximalPart(s: string, n: nat) {
    1 <= n <= |s| && (n == 1 || IsStart(s[..n])) && forall m :: n < m <= |s| ==> !IsStart(s[..m])
  }

  lemma LedIsScanned(s: string, c: int)
    requires Leads(s, c)
    ensures s != [] && Scan(s) == Chunk(|EncodeScalar(c)|, true)
  {
    var e := EncodeScalar(c);
    ScanScalar(c, s[|e|..]);
    assert s == e + s[|e|..];
  }

  lemma ValidIsLed(s: string)
    requires s != [] && Scan(s).valid
    ensures IsLed(s)
  {
    var c := ScannedIsScalar(s);
    assert Leads(s, c);
  }

  lemma ThreeByteStart(s: string) returns (c: int)
    requires |s| >= 2 && Width(s[0]) == 3 && SecondOk(s[0], s[1])
    ensures Starts(s[..2], c)
  {
    var x, y := s[0] as int - 0xE0, s[1] as int - 0x80;
    c := x * 0x1000 + y * 0x40;
    assert c / 0x40 == x * 0x40 + y && c / 0x1000 == x && (c / 0x40) % 0x40 == y;
    assert EncodeScalar(c)[..2] == s[..2];
  }

  lemma FourByteStart(s: string, n: nat) returns (c: int)
    requires 2 <= n <= 3 && |s| >= n && Width(s[0]) == 4 && SecondOk(s[0], s[1]) && (n == 3 ==> IsCont(s[2]))
    ensures Starts(s[..n], c)
  {
    var w, x, y := s[0] as int - 0xF0, s[1] as int - 0x80, if n == 3 then s[2] as int - 0x80 else 0;
    c := w * 0x40000 + x * 0x1000 + y * 0x40;
    assert c / 0x40 == w * 0x1000 + x * 0x40 + y && (c / 0x40) % 0x40 == y;
    assert c / 0x1000 == w * 0x40 + x && (c / 0x1000) % 0x40 == x;
    assert c / 0x40000 == w;
    assert EncodeScalar(c)[..n] == s[..n];
  }

  lemma MalformedIsStart(s: string)
    requires s != [] && !Scan(s).valid && Scan(s).length > 1
    ensures IsStart(s[..Scan(s).length])
  {
    if Width(s[0]) == 3 {
      var c := ThreeByteStart(s);
    } else {
      var c := FourByteStart(s, Scan(s).length);
    }
  }

  lemma StartSharesBytes(s: string, m: nat, c: int)
    requires m <= |s| && Starts(s[..m], c)
    ensures Scan(EncodeScalar(c)) == Chunk(|EncodeScalar(c)|, true)
    ensures forall i :: 0 <= i < m ==> EncodeScalar(c)[i] == s[i]
  {
    var e := EncodeScalar(c);
    ScanScalar(c, []);
    assert e + [] == e;
    assert forall i :: 0 <= i < m ==> e[i] == e[..m][i] == s[..m][i] == s[i];
  }

  lemma LongerIsNoStart(s: string, m: nat, c: int)
    requires s != [] && !Scan(s).valid && Scan(s).length < m <= |s|
    ensures !Starts(s[..m], c)
  {
    if Starts(s[..m], c) { StartSharesBytes(s, m, c); }
  }

  lemma ScanIsMaximal(s: string)
    requires s != [] && !Scan(s).valid
    ensures IsMaximalPart(s, Scan(s).length)
  {
    if Scan(s).length > 1 { MalformedIsStart(s); }
    forall m, c | Scan(s).length < m <= |s| ensures !Starts(s[..m], c) { LongerIsNoStart(s, m, c); }
  }

  lemma MaximalIsUnique(s: string, n: nat, m: nat)
    requires IsMaximalPart(s, n) && IsMaximalPart(s, m)
    ensures n == m
  {}

  /** A character at the front is kept; malformed bytes there are replaced up to the longest start of a
      character; and the conversion goes on behind them. */
  lemma LossyReads(s: string, c: int, n: nat)
    ensures Lossy([]) == []
    ensures Leads(s, c) ==> Lossy(s) == EncodeScalar(c) + Lossy(s[|EncodeScalar(c)|..])
    ensures !IsLed(s) && IsMaximalPart(s, n) ==> Lossy(s) == REPLACEMENT + Lossy(s[n..])
  {
    if Leads(s, c) {
      LedIsScanned(s, c);
    } else if !IsLed(s) && IsMaximalPart(s, n) {
      if Scan(s).valid { ValidIsLed(s); }
      ScanIsMaximal(s);
      MaximalIsUnique(s, n, Scan(s).length);
    }
  }
}
