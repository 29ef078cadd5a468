/** Well-formed UTF-8 (section 3 of RFC 3629) and Rust's lossy decoder. */
module Utf8 {
  import opened ByteStrings

  /** U+FFFD, written for every maximal ill-formed run. */
  const REPLACEMENT: Bytes := [0xEF, 0xBF, 0xBD]

  datatype Chunk = Chunk(len: nat, wellFormed: bool)

  predicate InRange(s: Bytes, i: nat, low: byte, high: byte) {
    i < |s| && low <= s[i] <= high
  }

  predicate Tail(s: Bytes, i: nat) {
    InRange(s, i, 0x80, 0xBF)
  }

  /** The first character of `s`, or its first maximal ill-formed run. */
  function FirstChunk(s: Bytes): (c: Chunk)
    requires s != []
    ensures 1 <= c.len <= |s|
  {
    var b := s[0];
    if b < 0x80 then Chunk(1, true)
    else if 0xC2 <= b <= 0xDF then
      if Tail(s, 1) then Chunk(2, true) else Chunk(1, false)
    else if 0xE0 <= b <= 0xEF then
      var low := if b == 0xE0 then 0xA0 else 0x80;
      var high := if b == 0xED then 0x9F else 0xBF;
      if !InRange(s, 1, low, high) then Chunk(1, false)
      else if !Tail(s, 2) then Chunk(2, false)
      else Chunk(3, true)
    else if 0xF0 <= b <= 0xF4 then
      var low := if b == 0xF0 then 0x90 else 0x80;
      var high := if b == 0xF4 then 0x8F else 0xBF;
      if !InRange(s, 1, low, high) then Chunk(1, false)
      else if !Tail(s, 2) then Chunk(2, false)
      else if !Tail(s, 3) then Chunk(3, false)
      else Chunk(4, true)
    else Chunk(1, false)
  }

  predicate Valid(s: Bytes) {
    s == [] || (FirstChunk(s).wellFormed && Valid(s[FirstChunk(s).len..]))
  }

  /** `String::from_utf8_lossy`. */
  function Lossy(s: Bytes): Bytes {
    if s == [] then []
    else
      var c := FirstChunk(s);
      (if c.wellFormed then s[..c.len] else REPLACEMENT) + Lossy(s[c.len..])
  }

  lemma FirstChunkIsLocal(s: Bytes, t: Bytes)
    requires s != [] && FirstChunk(s).wellFormed
    ensures FirstChunk(s[..FirstChunk(s).len] + t) == FirstChunk(s)
  {
  }

  lemma {:induction false} LossyKeepsValid(s: Bytes)
    requires Valid(s)
    ensures Lossy(s) == s
  {
    if s != [] {
      LossyKeepsValid(s[FirstChunk(s).len..]);
    }
  }

  lemma {:induction false} LossyIsValid(s: Bytes)
    ensures Valid(Lossy(s))
  {
    if s != [] {
      var c := FirstChunk(s);
      var rest := Lossy(s[c.len..]);
      LossyIsValid(s[c.len..]);
      if c.wellFormed {
        FirstChunkIsLocal(s, rest);
        assert (s[..c.len] + rest)[c.len..] == rest;
      } else {
        assert FirstChunk(REPLACEMENT + rest) == Chunk(3, true);
        assert (REPLACEMENT + rest)[3..] == rest;
      }
    }
  }

  // ---------------------------------------------------------------------------
  // Text
  // ---------------------------------------------------------------------------

  /** The bytes of one character, a Unicode scalar value. */
  function CharBytes(c: char): (bytes: Bytes)
    ensures 1 <= |bytes| <= 4
  {
    var n := c as int;
    if n < 0x80 then [n]
    else if n < 0x800 then [0xC0 + n / 0x40, 0x80 + n % 0x40]
    else if n < 0x1_0000 then [0xE0 + n / 0x1000, 0x80 + n / 0x40 % 0x40, 0x80 + n % 0x40]
    else [0xF0 + n / 0x4_0000, 0x80 + n / 0x1000 % 0x40, 0x80 + n / 0x40 % 0x40, 0x80 + n % 0x40]
  }

  function Encoded(text: string): Bytes {
    if text == [] then [] else CharBytes(text[0]) + Encoded(text[1..])
  }

  /** A lead byte, tail bytes, and a second byte in the range that the lead byte allows. */
  lemma CharShape(c: char)
    ensures var bytes, n := CharBytes(c), |CharBytes(c)|;
            && (forall i | 0 < i < n :: 0x80 <= bytes[i] <= 0xBF)
            && (n == 1 ==> bytes[0] < 0x80)
            && (n == 2 ==> 0xC2 <= bytes[0] <= 0xDF)
            && (n == 3 ==> 0xE0 <= bytes[0] <= 0xEF && (bytes[0] == 0xE0 ==> bytes[1] >= 0xA0)
                           && (bytes[0] == 0xED ==> bytes[1] <= 0x9F))
            && (n == 4 ==> 0xF0 <= bytes[0] <= 0xF4 && (bytes[0] == 0xF0 ==> bytes[1] >= 0x90)
                           && (bytes[0] == 0xF4 ==> bytes[1] <= 0x8F))
  {
  }

  lemma {:induction false} CharIsChunk(c: char, rest: Bytes)
    ensures FirstChunk(CharBytes(c) + rest) == Chunk(|CharBytes(c)|, true)
  {
    hide CharBytes;
    CharShape(c);
    var bytes, s := CharBytes(c), CharBytes(c) + rest;
    assert s[0] == bytes[0] && forall i | 0 <= i < |bytes| :: s[i] == bytes[i];
  }

  /** The digits of a number in base 64. */
  lemma Base64Digits(a: int, b: int, c: int, d: int)
    requires 0 <= b < 0x40 && 0 <= c < 0x40 && 0 <= d < 0x40
    ensures var n := a * 0x4_0000 + b * 0x1000 + c * 0x40 + d;
            n % 0x40 == d && n / 0x40 % 0x40 == c && n / 0x1000 % 0x40 == b && n / 0x4_0000 == a
  {
    var n := a * 0x4_0000 + b * 0x1000 + c * 0x40 + d;
    assert n / 0x40 == a * 0x1000 + b * 0x40 + c && n / 0x1000 == a * 0x40 + b;
  }

  /** A character of four bytes. */
  lemma LongChar(s: Bytes) returns (c: char)
    requires s != [] && FirstChunk(s) == Chunk(4, true)
    ensures CharBytes(c) == s[..4]
  {
    var b0: int, b1: int, b2: int, b3: int := s[0], s[1], s[2], s[3];
    var n := (b0 - 0xF0) * 0x4_0000 + (b1 - 0x80) * 0x1000 + (b2 - 0x80) * 0x40 + (b3 - 0x80);
    assert 0x1_0000 <= n < 0x11_0000;
    Base64Digits(b0 - 0xF0, b1 - 0x80, b2 - 0x80, b3 - 0x80);
    c := n as char;
  }

  /** A character of three bytes. */
  lemma ShortChar(s: Bytes) returns (c: char)
    requires s != [] && FirstChunk(s) == Chunk(3, true)
    ensures CharBytes(c) == s[..3]
  {
    var b0: int, b1: int, b2: int := s[0], s[1], s[2];
    var n := (b0 - 0xE0) * 0x1000 + (b1 - 0x80) * 0x40 + (b2 - 0x80);
    assert 0x800 <= n < 0x1_0000 && !(0xD800 <= n < 0xE000);
    Base64Digits(0, b0 - 0xE0, b1 - 0x80, b2 - 0x80);
    c := n as char;
  }

  /** The character a well-formed chunk encodes. */
  lemma ChunkIsChar(s: Bytes) returns (c: char)
    requires s != [] && FirstChunk(s).wellFormed
    ensures CharBytes(c) == s[..FirstChunk(s).len]
  {
    var len := FirstChunk(s).len;
    var b0: int := s[0];
    var b1: int := if len > 1 then s[1] as int - 0x80 else 0;
    match len
    case 1 => c := b0 as char;
    case 2 => c := ((b0 - 0xC0) * 0x40 + b1) as char;
    case 3 => c := ShortChar(s);
    case 4 => c := LongChar(s);
  }

  lemma {:induction false} EncodedIsValid(text: string)
    ensures Valid(Encoded(text))
  {
    if text != [] {
      var rest := Encoded(text[1..]);
      CharIsChunk(text[0], rest);
      EncodedIsValid(text[1..]);
      assert (CharBytes(text[0]) + rest)[|CharBytes(text[0])|..] == rest;
    }
  }

  lemma {:induction false} ValidIsEncoded(s: Bytes) returns (text: string)
    requires Valid(s)
    ensures Encoded(text) == s
  {
    hide FirstChunk, CharBytes;
    if s == [] {
      text := [];
    } else {
      var c := ChunkIsChar(s);
      var rest := ValidIsEncoded(s[FirstChunk(s).len..]);
      text := [c] + rest;
      assert text[1..] == rest;
    }
  }

  /** The well-formed byte strings are those of texts. */
  lemma ValidIff(s: Bytes)
    ensures Valid(s) <==> exists text :: Encoded(text) == s
  {
    if Valid(s) {
      var text := ValidIsEncoded(s);
    }
    forall text | Encoded(text) == s ensures Valid(s) {
      EncodedIsValid(text);
    }
  }

  lemma BeginsWithChar(s: Bytes, c: char)
    requires CharBytes(c) <= s
    ensures FirstChunk(s) == Chunk(|CharBytes(c)|, true)
  {
    hide FirstChunk, CharBytes;
    CharIsChunk(c, s[|CharBytes(c)|..]);
    assert s == CharBytes(c) + s[|CharBytes(c)|..];
  }

  lemma NothingGoesOn(s: Bytes, c: char)
    requires s != [] && !FirstChunk(s).wellFormed && FirstChunk(s).len < |s|
    ensures !(s[..FirstChunk(s).len + 1] <= CharBytes(c))
  {
    var more, bytes := s[..FirstChunk(s).len + 1], CharBytes(c);
    if more <= bytes {
      assert bytes + [] == bytes;
      CharIsChunk(c, []);
      assert forall i | 0 <= i < |more| :: bytes[i] == s[i];
    }
  }

  /** A run of more than one byte begins a character. */
  lemma RunBeginsChar(s: Bytes) returns (c: char)
    requires s != [] && !FirstChunk(s).wellFormed && FirstChunk(s).len > 1
    ensures s[..FirstChunk(s).len] <= CharBytes(c)
  {
    var run := s[..FirstChunk(s).len];
    var whole := run + if s[0] < 0xF0 || |run| == 3 then [0x80] else [0x80, 0x80];
    c := ChunkIsChar(whole);
    assert CharBytes(c) == whole && run <= CharBytes(c);
  }

  /**
   What is replaced: a run that no character begins with, of one byte or the beginning of a
   character, and as long as that can be said of it.
   */
  lemma IllFormedIsMaximal(s: Bytes)
    requires s != [] && !FirstChunk(s).wellFormed
    ensures forall c :: !(CharBytes(c) <= s)
    ensures FirstChunk(s).len == 1 || exists c :: s[..FirstChunk(s).len] <= CharBytes(c)
    ensures FirstChunk(s).len < |s| ==> forall c :: !(s[..FirstChunk(s).len + 1] <= CharBytes(c))
  {
    hide FirstChunk, CharBytes;
    forall c ensures !(CharBytes(c) <= s) {
      if CharBytes(c) <= s { BeginsWithChar(s, c); }
    }
    if FirstChunk(s).len > 1 {
      var c := RunBeginsChar(s);
    }
    if FirstChunk(s).len < |s| {
      forall c ensures !(s[..FirstChunk(s).len + 1] <= CharBytes(c)) {
        NothingGoesOn(s, c);
      }
    }
  }

  /** Text is kept, and what replaces a run is the character U+FFFD. */
  lemma {:induction false} LossyOfText(text: string, s: Bytes)
    ensures Lossy(Encoded(text) + s) == Encoded(text) + Lossy(s)
    ensures REPLACEMENT == CharBytes('\U{FFFD}')
  {
    hide FirstChunk;
    if text == [] {
      assert Encoded(text) + s == s && Encoded(text) + Lossy(s) == Lossy(s);
    } else {
      var bytes, rest := CharBytes(text[0]), Encoded(text[1..]);
      LossyOfText(text[1..], s);
      CharIsChunk(text[0], rest + s);
      AppendAssociates(bytes, rest, s);
      AppendAssociates(bytes, rest, Lossy(s));
      var whole := bytes + (rest + s);
      assert whole[..|bytes|] == bytes && whole[|bytes|..] == rest + s;
    }
  }

  lemma CharHasByte(c: char, b: byte)
    requires b < 0x80
    ensures b in CharBytes(c) <==> c as int == b
    ensures CharBytes(c) == [b] <==> c as int == b
  {
    CharShape(c);
    assert CharBytes(c) == [CharBytes(c)[0]] || 0x80 <= CharBytes(c)[1];
  }

  /** Among bytes below 0x80 a text shows exactly its own characters. */
  lemma {:induction false} EncodedHas(text: string, b: byte)
    requires b < 0x80
    ensures b in Encoded(text) <==> b as char in text
  {
    hide CharBytes;
    if text != [] {
      CharHasByte(text[0], b);
      EncodedHas(text[1..], b);
      assert text == [text[0]] + text[1..];
    }
  }

  lemma {:induction false} EncodedStarts(text: string, other: string)
    requires Encoded(text) == Encoded(other) && text != [] && other != []
    ensures CharBytes(text[0]) == CharBytes(other[0]) && Encoded(text[1..]) == Encoded(other[1..])
  {
    hide FirstChunk, CharBytes;
    var s := Encoded(text);
    CharIsChunk(text[0], Encoded(text[1..]));
    CharIsChunk(other[0], Encoded(other[1..]));
    var n := |CharBytes(text[0])|;
    assert s[..n] == CharBytes(text[0]) == CharBytes(other[0]);
    assert s[n..] == Encoded(text[1..]) == Encoded(other[1..]);
  }

  /** A number is its last digit in base 64 and the digits before it. */
  lemma DigitsOf(n: nat)
    ensures n == n / 0x40 * 0x40 + n % 0x40
    ensures n / 0x40 == n / 0x1000 * 0x40 + n / 0x40 % 0x40
    ensures n / 0x1000 == n / 0x4_0000 * 0x40 + n / 0x1000 % 0x40
  {
    assert n / 0x1000 == n / 0x40 / 0x40;
    assert n / 0x4_0000 == n / 0x1000 / 0x40;
  }

  lemma CharInjective(c: char, d: char)
    requires CharBytes(c) == CharBytes(d)
    ensures c == d
  {
    DigitsOf(c as int);
    DigitsOf(d as int);
    var a, b := CharBytes(c), CharBytes(d);
    assert |a| == |b| && forall i | 0 <= i < |a| :: a[i] == b[i];
  }

  /** Different texts have different bytes. */
  lemma {:induction false} EncodedInjective(text: string, other: string)
    requires Encoded(text) == Encoded(other)
    ensures text == other
  {
    hide CharBytes;
    if text != [] && other != [] {
      EncodedStarts(text, other);
      CharInjective(text[0], other[0]);
      EncodedInjective(text[1..], other[1..]);
    }
  }
}
