/**
 Percent-encoding (sections 2.1 and 2.3 of RFC 3986) as webdav.rs and sigv4.rs
 write it: one encoder, a strict decoder and a lenient decoder.
 */
module PercentCoding {
  import opened ByteStrings
  import opened Wrappers

  predicate IsDigit(b: byte) { 0x30 <= b <= 0x39 }

  predicate Unreserved(b: byte) {
    IsDigit(b) || 0x41 <= b <= 0x5A || 0x61 <= b <= 0x7A
    || b == 0x2D || b == DOT || b == 0x5F || b == 0x7E
  }

  function HexValue(b: byte): (v: Option<byte>)
    ensures v.Some? ==> v.value < 16
  {
    if IsDigit(b) then Some(b - 0x30)
    else if 0x61 <= b <= 0x66 then Some(b - 0x61 + 10)
    else if 0x41 <= b <= 0x46 then Some(b - 0x41 + 10)
    else None
  }

  /** Upper-case hexadecimal digit. */
  function HexDigit(v: byte): (b: byte)
    requires v < 16
    ensures HexValue(b) == Some(v) && Unreserved(b)
  {
    if v < 10 then 0x30 + v else 0x41 + (v - 10)
  }

  function EncodeByte(b: byte, keepSlash: bool): Bytes {
    if Unreserved(b) || (b == SLASH && keepSlash) then [b]
    else [PERCENT, HexDigit(b / 16), HexDigit(b % 16)]
  }

  function Encode(s: Bytes, keepSlash: bool): Bytes {
    if s == [] then [] else EncodeByte(s[0], keepSlash) + Encode(s[1..], keepSlash)
  }

  function Cons(b: byte, rest: Option<Bytes>): Option<Bytes> {
    if rest.Some? then Some([b] + rest.value) else None
  }

  /** webdav.rs: a `%` must be followed by two hexadecimal digits. */
  function DecodeStrict(s: Bytes): Option<Bytes> {
    if s == [] then Some([])
    else if s[0] == PERCENT then
      if |s| < 3 || HexValue(s[1]).None? || HexValue(s[2]).None? then None
      else Cons(HexValue(s[1]).value * 16 + HexValue(s[2]).value, DecodeStrict(s[3..]))
    else Cons(s[0], DecodeStrict(s[1..]))
  }

  /** `u8::from_str_radix(_, 16)` on two bytes: a leading `+` is accepted. */
  function ParseRadix16(high: byte, low: byte): Option<byte> {
    if high == 0x2B then HexValue(low)
    else if HexValue(high).Some? && HexValue(low).Some? then Some(HexValue(high).value * 16 + HexValue(low).value)
    else None
  }

  /** sigv4.rs: a `%` that starts no escape stands for itself. */
  function DecodeLenient(s: Bytes): Bytes {
    if s == [] then []
    else if s[0] == PERCENT && |s| >= 3 && ParseRadix16(s[1], s[2]).Some? then
      [ParseRadix16(s[1], s[2]).value] + DecodeLenient(s[3..])
    else [s[0]] + DecodeLenient(s[1..])
  }

  /** The encoder emits only unreserved bytes, `%`, and `/` when told to keep it. */
  lemma {:induction false} EncodeAlphabet(s: Bytes, keepSlash: bool, b: byte)
    requires b in Encode(s, keepSlash)
    ensures Unreserved(b) || b == PERCENT || (keepSlash && b == SLASH)
  {
    if b !in EncodeByte(s[0], keepSlash) {
      EncodeAlphabet(s[1..], keepSlash, b);
    }
  }

  lemma {:induction false} DecodeStrictEncode(s: Bytes, keepSlash: bool)
    ensures DecodeStrict(Encode(s, keepSlash)) == Some(s)
  {
    if s != [] {
      DecodeStrictEncode(s[1..], keepSlash);
      var head := EncodeByte(s[0], keepSlash);
      assert Encode(s, keepSlash)[|head|..] == Encode(s[1..], keepSlash);
      assert s == [s[0]] + s[1..];
    }
  }

  lemma {:induction false} DecodeLenientEncode(s: Bytes, keepSlash: bool)
    ensures DecodeLenient(Encode(s, keepSlash)) == s
  {
    if s != [] {
      DecodeLenientEncode(s[1..], keepSlash);
      var head := EncodeByte(s[0], keepSlash);
      assert Encode(s, keepSlash)[|head|..] == Encode(s[1..], keepSlash);
      assert s == [s[0]] + s[1..];
    }
  }

  /** Decoding never makes a non-empty piece empty. */
  lemma DecodeStrictNonEmpty(s: Bytes)
    requires s != [] && DecodeStrict(s).Some?
    ensures DecodeStrict(s).value != []
  {
  }

  /** webdav.rs `percent_encode` and sigv4.rs `uri_encode`: push byte by byte. */
  method EncodeBytes(s: Bytes, keepSlash: bool) returns (encoded: Bytes)
    ensures encoded == Encode(s, keepSlash)
  {
    encoded := [];
    assert s[0..] == s;
    for i := 0 to |s|
      invariant encoded + Encode(s[i..], keepSlash) == Encode(s, keepSlash)
    {
      assert s[i..][1..] == s[i + 1..];
      AppendAssociates(encoded, EncodeByte(s[i], keepSlash), Encode(s[i + 1..], keepSlash));
      if Unreserved(s[i]) || (s[i] == SLASH && keepSlash) {
        encoded := encoded + [s[i]];
      } else {
        encoded := encoded + [PERCENT, HexDigit(s[i] / 16), HexDigit(s[i] % 16)];
      }
    }
  }

  ghost function Prefixed(head: Bytes, rest: Option<Bytes>): Option<Bytes> {
    if rest.Some? then Some(head + rest.value) else None
  }

  lemma PrefixedNothing(rest: Option<Bytes>)
    ensures Prefixed([], rest) == rest
  {
    if rest.Some? {
      assert [] + rest.value == rest.value;
    }
  }

  lemma PrefixedCons(head: Bytes, b: byte, rest: Option<Bytes>)
    ensures Prefixed(head, Cons(b, rest)) == Prefixed(head + [b], rest)
  {
    if rest.Some? {
      assert head + ([b] + rest.value) == head + [b] + rest.value;
    }
  }

  /** webdav.rs `percent_decode`, before the UTF-8 check. */
  method DecodeStrictBytes(s: Bytes) returns (r: Option<Bytes>)
    ensures r == DecodeStrict(s)
  {
    var decoded: Bytes := [];
    var index := 0;
    assert s[0..] == s;
    PrefixedNothing(DecodeStrict(s));
    while index < |s|
      invariant 0 <= index <= |s|
      invariant DecodeStrict(s) == Prefixed(decoded, DecodeStrict(s[index..]))
    {
      if s[index] == PERCENT {
        if index + 1 >= |s| { return None; }
        var high := HexValue(s[index + 1]);
        if high.None? { return None; }
        if index + 2 >= |s| { return None; }
        var low := HexValue(s[index + 2]);
        if low.None? { return None; }
        assert s[index..][3..] == s[index + 3..];
        PrefixedCons(decoded, high.value * 16 + low.value, DecodeStrict(s[index + 3..]));
        decoded := decoded + [high.value * 16 + low.value];
        index := index + 3;
      } else {
        assert s[index..][1..] == s[index + 1..];
        PrefixedCons(decoded, s[index], DecodeStrict(s[index + 1..]));
        decoded := decoded + [s[index]];
        index := index + 1;
      }
    }
    assert decoded + [] == decoded;
    r := Some(decoded);
  }

  /** sigv4.rs `percent_decode`, before the lossy UTF-8 step. */
  method DecodeLenientBytes(s: Bytes) returns (out: Bytes)
    ensures out == DecodeLenient(s)
  {
    hide ParseRadix16;
    out := [];
    var i := 0;
    assert s[0..] == s;
    while i < |s|
      invariant 0 <= i <= |s|
      invariant out + DecodeLenient(s[i..]) == DecodeLenient(s)
    {
      if s[i] == PERCENT && i + 2 < |s| && ParseRadix16(s[i + 1], s[i + 2]).Some? {
        assert s[i..][3..] == s[i + 3..];
        AppendAssociates(out, [ParseRadix16(s[i + 1], s[i + 2]).value], DecodeLenient(s[i + 3..]));
        out := out + [ParseRadix16(s[i + 1], s[i + 2]).value];
        i := i + 3;
        continue;
      }
      assert s[i..][1..] == s[i + 1..];
      AppendAssociates(out, [s[i]], DecodeLenient(s[i + 1..]));
      out := out + [s[i]];
      i := i + 1;
    }
  }

  // ---------------------------------------------------------------------------
  // What is written and read, character by character
  // ---------------------------------------------------------------------------

  /** The digits of an escape: both cases are read, the upper one is written. */
  lemma HexDigitsAre(b: byte, v: nat)
    requires v < 16
    ensures HexValue(b) == Some(v) <==>
              b == "0123456789abcdef"[v] as int || b == "0123456789ABCDEF"[v] as int
    ensures HexDigit(v) == "0123456789ABCDEF"[v] as int
  {
    var lower, upper := "0123456789abcdef", "0123456789ABCDEF";
    assert v < 10 ==> lower[v] as int == upper[v] as int == 0x30 + v;
    assert v >= 10 ==> lower[v] as int == 0x61 + v - 10 && upper[v] as int == 0x41 + v - 10;
  }

  lemma Capitals(b: byte)
    ensures b as char in "ABCDEFGHIJKLMNOPQRSTUVWXYZ" <==> 0x41 <= b <= 0x5A
  {
    var text := "ABCDEFGHIJKLMNOPQRSTUVWXYZ";
    if 0x41 <= b <= 0x5A { assert text[b - 0x41] == b as char; }
  }

  lemma SmallLetters(b: byte)
    ensures b as char in "abcdefghijklmnopqrstuvwxyz" <==> 0x61 <= b <= 0x7A
  {
    var text := "abcdefghijklmnopqrstuvwxyz";
    if 0x61 <= b <= 0x7A { assert text[b - 0x61] == b as char; }
  }

  lemma DecimalDigits(b: byte)
    ensures b as char in "0123456789" <==> 0x30 <= b <= 0x39
  {
    var text := "0123456789";
    if 0x30 <= b <= 0x39 { assert text[b - 0x30] == b as char; }
  }

  /** What section 2.3 of RFC 3986 leaves as it is. */
  lemma UnreservedAre(b: byte)
    ensures Unreserved(b) <==>
              || b as char in "ABCDEFGHIJKLMNOPQRSTUVWXYZ" || b as char in "abcdefghijklmnopqrstuvwxyz"
              || b as char in "0123456789" || b as char in "-._~"
  {
    Capitals(b);
    SmallLetters(b);
    DecimalDigits(b);
  }

  function Concat(pieces: seq<Bytes>): Bytes {
    if pieces == [] then [] else pieces[0] + Concat(pieces[1..])
  }

  /** A digit of an escape, in either case. */
  ghost predicate Digit(b: byte, v: nat)
    requires v < 16
  {
    b == "0123456789abcdef"[v] as int || b == "0123456789ABCDEF"[v] as int
  }

  /** `%` and the two digits of a byte. */
  ghost predicate Escape(piece: Bytes, b: byte) {
    |piece| == 3 && piece[0] == '%' as int && Digit(piece[1], b / 16) && Digit(piece[2], b % 16)
  }

  /** The spellings of a byte. */
  ghost predicate Spells(piece: Bytes, b: byte) {
    (piece == [b] && b != '%' as int) || Escape(piece, b)
  }

  ghost predicate AllSpell(pieces: seq<Bytes>, s: Bytes) {
    |pieces| == |s| && forall i | 0 <= i < |s| :: Spells(pieces[i], s[i])
  }

  lemma EscapeReads(piece: Bytes, b: byte)
    ensures Escape(piece, b) <==>
              && |piece| == 3 && piece[0] == PERCENT
              && HexValue(piece[1]) == Some(b / 16) && HexValue(piece[2]) == Some(b % 16)
  {
    if |piece| == 3 {
      HexDigitsAre(piece[1], b / 16);
      HexDigitsAre(piece[2], b % 16);
    }
  }

  lemma DecodeStrictStep(s: Bytes, n: nat, b: byte)
    requires n <= |s| && Spells(s[..n], b)
    ensures DecodeStrict(s) == Cons(b, DecodeStrict(s[n..]))
  {
    hide Escape;
    EscapeReads(s[..n], b);
    assert s[..n][0] == s[0] && (n == 3 ==> s[..n][1] == s[1] && s[..n][2] == s[2]);
  }

  /** The strict decoder reads every way of spelling a string, escapes in either case. */
  lemma {:induction false} DecodeStrictReads(pieces: seq<Bytes>, s: Bytes)
    requires AllSpell(pieces, s)
    ensures DecodeStrict(Concat(pieces)) == Some(s)
  {
    if s == [] {
      assert Concat(pieces) == [];
    } else {
      hide Spells, DecodeStrict;
      var piece, rest := pieces[0], Concat(pieces[1..]);
      DecodeStrictReads(pieces[1..], s[1..]);
      assert Spells(piece, s[0]) && s == [s[0]] + s[1..];
      assert (piece + rest)[..|piece|] == piece && (piece + rest)[|piece|..] == rest;
      DecodeStrictStep(piece + rest, |piece|, s[0]);
    }
  }

  lemma DecodeNothing()
    ensures DecodeStrict([]) == Some([]) && DecodeLenient([]) == []
  {
  }

  lemma FirstSpelled(s: Bytes) returns (n: nat, b: byte)
    requires s != [] && DecodeStrict(s).Some?
    ensures 1 <= n <= |s| && Spells(s[..n], b)
  {
    hide Escape;
    n := if s[0] == PERCENT then 3 else 1;
    b := DecodeStrict(s).value[0];
    EscapeReads(s[..n], b);
    assert s[..n][0] == s[0] && (n == 3 ==> s[..n][1] == s[1] && s[..n][2] == s[2]);
  }

  /** And it reads nothing else. */
  lemma {:induction false} DecodeStrictPieces(s: Bytes) returns (pieces: seq<Bytes>)
    requires DecodeStrict(s).Some?
    ensures AllSpell(pieces, DecodeStrict(s).value) && Concat(pieces) == s
    decreases |s|
  {
    hide Spells, DecodeStrict;
    if s == [] {
      DecodeNothing();
      pieces := [];
    } else {
      var n, b := FirstSpelled(s);
      DecodeStrictStep(s, n, b);
      var more := DecodeStrictPieces(s[n..]);
      pieces := [s[..n]] + more;
      assert pieces[1..] == more && s == s[..n] + s[n..];
    }
  }

  lemma {:induction false} SpelledHolds(pieces: seq<Bytes>, s: Bytes, b: byte)
    requires AllSpell(pieces, s) && b != PERCENT && HexValue(b).None? && b !in s
    ensures b !in Concat(pieces)
  {
    hide Escape;
    if s != [] {
      SpelledHolds(pieces[1..], s[1..], b);
      EscapeReads(pieces[0], s[0]);
      assert Spells(pieces[0], s[0]);
    }
  }

  lemma DecodeStrictIff(s: Bytes, decoded: Bytes)
    ensures DecodeStrict(s) == Some(decoded) <==> exists pieces :: AllSpell(pieces, decoded) && Concat(pieces) == s
  {
    if DecodeStrict(s) == Some(decoded) {
      var pieces := DecodeStrictPieces(s);
    }
    forall pieces | AllSpell(pieces, decoded) && Concat(pieces) == s ensures DecodeStrict(s) == Some(decoded) {
      DecodeStrictReads(pieces, decoded);
    }
  }

  lemma {:induction false} EncodeAppend(left: Bytes, right: Bytes, keepSlash: bool)
    ensures Encode(left + right, keepSlash) == Encode(left, keepSlash) + Encode(right, keepSlash)
  {
    if left == [] {
      assert left + right == right;
    } else {
      EncodeAppend(left[1..], right, keepSlash);
      assert (left + right)[1..] == left[1..] + right && (left + right)[0] == left[0];
      AppendAssociates(EncodeByte(left[0], keepSlash), Encode(left[1..], keepSlash), Encode(right, keepSlash));
    }
  }

  /** The encoder writes byte by byte: as it is, or as an escape in upper case. */
  lemma {:induction false} EncodeSpelled(left: Bytes, b: byte, right: Bytes, keepSlash: bool)
    ensures Encode([], keepSlash) == []
    ensures Encode([b], keepSlash) ==
              if || b as char in "ABCDEFGHIJKLMNOPQRSTUVWXYZ" || b as char in "abcdefghijklmnopqrstuvwxyz"
                 || b as char in "0123456789" || b as char in "-._~" || (keepSlash && b as char == '/')
              then [b]
              else ['%' as int, "0123456789ABCDEF"[b / 16] as int, "0123456789ABCDEF"[b % 16] as int]
    ensures Encode(left + right, keepSlash) == Encode(left, keepSlash) + Encode(right, keepSlash)
  {
    UnreservedAre(b);
    HexDigitsAre(0, b / 16);
    HexDigitsAre(0, b % 16);
    assert EncodeByte(b, keepSlash) + [] == EncodeByte(b, keepSlash) && [b][1..] == [];
    EncodeAppend(left, right, keepSlash);
  }

  lemma DecodeLenientStep(s: Bytes, n: nat, b: byte)
    requires n <= |s| && Spells(s[..n], b)
    ensures DecodeLenient(s) == [b] + DecodeLenient(s[n..])
  {
    hide Escape;
    EscapeReads(s[..n], b);
    assert s[..n][0] == s[0] && (n == 3 ==> s[..n][1] == s[1] && s[..n][2] == s[2]);
  }

  /** The lenient decoder reads every way of spelling a string as well, and goes on behind it. */
  lemma {:induction false} DecodeLenientReads(pieces: seq<Bytes>, s: Bytes, rest: Bytes)
    requires AllSpell(pieces, s)
    ensures DecodeLenient(Concat(pieces) + rest) == s + DecodeLenient(rest)
  {
    hide Spells, DecodeLenient;
    if s == [] {
      assert Concat(pieces) + rest == rest && s + DecodeLenient(rest) == DecodeLenient(rest);
    } else {
      var piece, more := pieces[0], Concat(pieces[1..]);
      DecodeLenientReads(pieces[1..], s[1..], rest);
      assert Spells(piece, s[0]) && s == [s[0]] + s[1..];
      AppendAssociates(piece, more, rest);
      AppendAssociates([s[0]], s[1..], DecodeLenient(rest));
      assert (piece + (more + rest))[..|piece|] == piece && (piece + (more + rest))[|piece|..] == more + rest;
      DecodeLenientStep(piece + (more + rest), |piece|, s[0]);
    }
  }

  lemma DigitsAre(b: byte)
    ensures forall v :: 0 <= v < 16 ==> (Digit(b, v) <==> HexValue(b) == Some(v))
  {
    forall v | 0 <= v < 16 ensures Digit(b, v) <==> HexValue(b) == Some(v) {
      HexDigitsAre(b, v);
    }
  }

  /** A `%` that begins no escape stands for itself; `+` may take the place of the first digit. */
  lemma DecodeLenientOther(rest: Bytes)
    ensures |rest| < 2 || !(rest[0] == '+' as int || exists v :: 0 <= v < 16 && Digit(rest[0], v))
            || !(exists v :: 0 <= v < 16 && Digit(rest[1], v)) ==>
              DecodeLenient(['%' as int] + rest) == ['%' as int] + DecodeLenient(rest)
    ensures forall v :: 0 <= v < 16 && |rest| >= 2 && rest[0] == '+' as int && Digit(rest[1], v) ==>
              DecodeLenient(['%' as int] + rest) == [v] + DecodeLenient(rest[2..])
  {
    hide Digit;
    var s := ['%' as int] + rest;
    assert s[1..] == rest && (|s| >= 3 ==> s[3..] == rest[2..]);
    if |rest| >= 2 {
      DigitsAre(rest[0]);
      DigitsAre(rest[1]);
    }
  }
}
