/** UTF-8 (section 3 of RFC 3629) over bytes, which are characters below 256, and the lossy conversion
    that replaces every malformed stretch by the replacement character. */
module Utf8 {

  // -- Scanning ---------------------------------------------------------------

  predicate IsCont(b: char) {
    0x80 as char <= b <= 0xBF as char
  }

  /** How many bytes a first byte announces; 0 for one that cannot be first. */
  function Width(b: char): nat {
    if b < 0x80 as char then 1
    else if 0xC2 as char <= b <= 0xDF as char then 2
    else if 0xE0 as char <= b <= 0xEF as char then 3
    else if 0xF0 as char <= b <= 0xF4 as char then 4
    else 0
  }

  /** The second bytes a first byte allows: no overlong form, no surrogate, nothing beyond U+10FFFF. */
  predicate SecondOk(first: char, b: char) {
    match first as int
    case 0xE0 => 0xA0 as char <= b <= 0xBF as char
    case 0xED => 0x80 as char <= b <= 0x9F as char
    case 0xF0 => 0x90 as char <= b <= 0xBF as char
    case 0xF4 => 0x80 as char <= b <= 0x8F as char
    case _ => IsCont(b)
  }

  datatype Chunk = Chunk(length: nat, valid: bool)

  /** The next character, or the longest start of one that is there. */
  function Scan(s: string): (c: Chunk)
    requires s != []
    ensures 1 <= c.length <= |s|
  {
    var w := Width(s[0]);
    if w <= 1 then Chunk(1, w == 1)
    else if |s| < 2 || !SecondOk(s[0], s[1]) then Chunk(1, false)
    else if w == 2 then Chunk(2, true)
    else if |s| < 3 || !IsCont(s[2]) then Chunk(2, false)
    else if w == 3 then Chunk(3, true)
    else if |s| < 4 || !IsCont(s[3]) then Chunk(3, false)
    else Chunk(4, true)
  }

  predicate IsUtf8(s: string) {
    s == [] || (Scan(s).valid && IsUtf8(s[Scan(s).length..]))
  }

  /** The encoding of U+FFFD. */
  const REPLACEMENT := [0xEF as char, 0xBF as char, 0xBD as char]

  function Lossy(s: string): string {
    if s == [] then []
    else (if Scan(s).valid then s[..Scan(s).length] else REPLACEMENT) + Lossy(s[Scan(s).length..])
  }

  /** One valid character in front of anything is scanned as itself. */
  lemma ScanFront(s: string, rest: string)
    requires s != [] && Scan(s).valid
    ensures var front := s[..Scan(s).length]; Scan(front + rest) == Scan(s)
  {}

  lemma ReplacementIsValid(rest: string)
    ensures Scan(REPLACEMENT + rest) == Chunk(3, true)
  {}

  /** Whatever comes in, the conversion yields well-formed text. */
  lemma {:induction false} LossyIsUtf8(s: string)
    ensures IsUtf8(Lossy(s))
  {
    if s != [] {
      var rest := Lossy(s[Scan(s).length..]);
      LossyIsUtf8(s[Scan(s).length..]);
      if Scan(s).valid {
        ScanFront(s, rest);
        assert (s[..Scan(s).length] + rest)[Scan(s).length..] == rest;
      } else {
        ReplacementIsValid(rest);
        assert (REPLACEMENT + rest)[3..] == rest;
      }
    }
  }

  lemma {:induction false} LossyKeepsUtf8(s: string)
    requires IsUtf8(s)
    ensures Lossy(s) == s
  {
    if s != [] {
      LossyKeepsUtf8(s[Scan(s).length..]);
      assert s == s[..Scan(s).length] + s[Scan(s).length..];
    }
  }

  /** The conversion leaves exactly the well-formed texts alone. */
  lemma LossyIsIdentityExactly(s: string)
    ensures Lossy(s) == s <==> IsUtf8(s)
  {
    LossyIsUtf8(s);
    if IsUtf8(s) { LossyKeepsUtf8(s); }
  }

  // -- What well-formed means -------------------------------------------------

  predicate IsScalar(c: int) {
    0 <= c < 0xD800 || 0xE000 <= c <= 0x10FFFF
  }

  function ContByte(n: nat): char {
    (0x80 + n % 0x40) as char
  }

  /** The bytes of a Unicode scalar value. */
  function EncodeScalar(c: int): string
    requires IsScalar(c)
  {
    if c < 0x80 then [c as char]
    else if c < 0x800 then [(0xC0 + c / 0x40) as char, ContByte(c)]
    else if c < 0x10000 then [(0xE0 + c / 0x1000) as char, ContByte(c / 0x40), ContByte(c)]
    else [(0xF0 + c / 0x40000) as char, ContByte(c / 0x1000), ContByte(c / 0x40), ContByte(c)]
  }

  predicate AreScalars(cs: seq<int>) {
    forall i :: 0 <= i < |cs| ==> IsScalar(cs[i])
  }

  function EncodeScalars(cs: seq<int>): string
    requires AreScalars(cs)
  {
    if cs == [] then [] else EncodeScalar(cs[0]) + EncodeScalars(cs[1..])
  }

  lemma ScanScalar(c: int, rest: string)
    requires IsScalar(c)
    ensures Scan(EncodeScalar(c) + rest) == Chunk(|EncodeScalar(c)|, true)
  {
    var s := EncodeScalar(c) + rest;
    if c < 0x80 {
      assert s[0] == c as char;
    } else if c < 0x800 {
      assert s[1] == ContByte(c);
    } else if c < 0x10000 {
      assert s[1] == ContByte(c / 0x40) && s[2] == ContByte(c);
    } else {
      assert s[1] == ContByte(c / 0x1000) && s[2] == ContByte(c / 0x40) && s[3] == ContByte(c);
    }
  }

  lemma ScannedIsScalar(s: string) returns (c: int)
    requires s != [] && Scan(s).valid
    ensures IsScalar(c) && s[..Scan(s).length] == EncodeScalar(c)
  {
    var b0 := s[0] as int;
    if Width(s[0]) == 1 {
      c := b0;
    } else if Width(s[0]) == 2 {
      c := TwoBytes(s);
    } else if Width(s[0]) == 3 {
      c := ThreeBytes(s);
    } else {
      c := FourBytes(s);
    }
  }

  lemma TwoBytes(s: string) returns (c: int)
    requires s != [] && Scan(s) == Chunk(2, true)
    ensures IsScalar(c) && s[..2] == EncodeScalar(c)
  {
    c := (s[0] as int - 0xC0) * 0x40 + (s[1] as int - 0x80);
    assert c / 0x40 == s[0] as int - 0xC0 && c % 0x40 == s[1] as int - 0x80;
  }

  lemma ThreeBytes(s: string) returns (c: int)
    requires s != [] && Scan(s) == Chunk(3, true)
    ensures IsScalar(c) && s[..3] == EncodeScalar(c)
  {
    var x, y, z := s[0] as int - 0xE0, s[1] as int - 0x80, s[2] as int - 0x80;
    c := x * 0x1000 + y * 0x40 + z;
    assert c / 0x40 == x * 0x40 + y && c % 0x40 == z;
    assert c / 0x1000 == x && (c / 0x40) % 0x40 == y;
  }

  lemma FourBytes(s: string) returns (c: int)
    requires s != [] && Scan(s) == Chunk(4, true)
    ensures IsScalar(c) && s[..4] == EncodeScalar(c)
  {
    var w, x, y, z := s[0] as int - 0xF0, s[1] as int - 0x80, s[2] as int - 0x80, s[3] as int - 0x80;
    c := w * 0x40000 + x * 0x1000 + y * 0x40 + z;
    assert c / 0x40 == w * 0x1000 + x * 0x40 + y && c % 0x40 == z;
    assert c / 0x1000 == w * 0x40 + x && (c / 0x40) % 0x40 == y;
    assert c / 0x40000 == w && (c / 0x1000) % 0x40 == x;
  }

  /** A byte string is well-formed exactly when it is the encoding of some scalar values. */
  lemma {:induction false} Utf8Exactly(s: string)
    ensures IsUtf8(s) <==> exists cs :: AreScalars(cs) && EncodeScalars(cs) == s
  {
    if IsUtf8(s) { var cs := ScalarsOf(s); }
    forall cs | AreScalars(cs) && EncodeScalars(cs) == s ensures IsUtf8(s) { ScalarsAreUtf8(cs); }
  }

  lemma {:induction false} ScalarsOf(s: string) returns (cs: seq<int>)
    requires IsUtf8(s)
    ensures AreScalars(cs) && EncodeScalars(cs) == s
    decreases |s|
  {
    if s == [] { return []; }
    var n := Scan(s).length;
    var c := ScannedIsScalar(s);
    var rest := ScalarsOf(s[n..]);
    cs := [c] + rest;
    assert cs[1..] == rest && s == s[..n] + s[n..];
  }

  lemma {:induction false} ScalarsAreUtf8(cs: seq<int>)
    requires AreScalars(cs)
    ensures IsUtf8(EncodeScalars(cs))
  {
    if cs != [] {
      var front, rest := EncodeScalar(cs[0]), EncodeScalars(cs[1..]);
      ScalarsAreUtf8(cs[1..]);
      ScanScalar(cs[0], rest);
      assert (front + rest)[|front|..] == rest;
    }
  }
}
