/** `decodeBase32` of totp.ts (section 6 of RFC 4648), with the accumulator a 32-bit JavaScript integer. */
module Base32 {
  import opened BitStrings
  import opened Wrappers
  import opened ByteStrings

  /** Position in "ABCDEFGHIJKLMNOPQRSTUVWXYZ234567". */
  function IndexOf(c: char): (index: Option<nat>)
    ensures index.Some? ==> index.value < 32
  {
    if 'A' <= c <= 'Z' then Some((c as int) - ('A' as int))
    else if '2' <= c <= '7' then Some((c as int) - ('2' as int) + 26)
    else None
  }

  /** The alphabet of section 6 of RFC 4648, in order. */
  lemma AlphabetIs(c: char, i: nat)
    ensures IndexOf(c) == Some(i) <==> i < 32 && "ABCDEFGHIJKLMNOPQRSTUVWXYZ234567"[i] == c
  {
    var text := "ABCDEFGHIJKLMNOPQRSTUVWXYZ234567";
    assert forall k | 0 <= k < 26 :: text[k] as int == 'A' as int + k;
    assert forall k | 26 <= k < 32 :: text[k] as int == '2' as int + k - 26;
  }

  // ---------------------------------------------------------------------------
  // Cleaning
  // ---------------------------------------------------------------------------

  /** What `toUpperCase` makes of one character, which may be several. */
  type Capitals = char -> string

  function Upper(value: string, capitals: Capitals): string {
    if value == [] then [] else Upper(value[..|value| - 1], capitals) + capitals(value[|value| - 1])
  }

  /** `/=+$/g`: the run of `=` at the very end. */
  function DropPadding(s: string): string {
    if s != [] && s[|s| - 1] == '=' then DropPadding(s[..|s| - 1]) else s
  }

  /** `\s` of JavaScript. */
  predicate IsSpace(c: char) {
    var n := c as int;
    || 0x09 <= n <= 0x0D || n == 0x20 || n == 0xA0 || n == 0x1680 || 0x2000 <= n <= 0x200A
    || n == 0x2028 || n == 0x2029 || n == 0x202F || n == 0x205F || n == 0x3000 || n == 0xFEFF
  }

  /** Its characters: the controls among them, blanks of several widths, the line and paragraph separators. */
  lemma SpaceIs(c: char)
    ensures IsSpace(c) <==>
              || c in "\t\n\U{0B}\U{0C}\r \U{A0}\U{1680}"
              || c in "\U{2000}\U{2001}\U{2002}\U{2003}\U{2004}\U{2005}\U{2006}\U{2007}\U{2008}\U{2009}\U{200A}"
              || c in "\U{2028}\U{2029}\U{202F}\U{205F}\U{3000}\U{FEFF}"
  {
    var n := c as int;
    var wide :=
      "\U{2000}\U{2001}\U{2002}\U{2003}\U{2004}\U{2005}\U{2006}\U{2007}\U{2008}\U{2009}\U{200A}";
    if 0x2000 <= n <= 0x200A { assert wide[n - 0x2000] == c; }
  }

  function DropSpace(s: string): string {
    if s == [] then []
    else DropSpace(s[..|s| - 1]) + if IsSpace(s[|s| - 1]) then [] else [s[|s| - 1]]
  }

  function Clean(value: string, capitals: Capitals): string {
    DropSpace(DropPadding(Upper(value, capitals)))
  }

  /** Characters that are their own capitals. */
  ghost predicate Settled(s: string, capitals: Capitals) {
    forall i | 0 <= i < |s| :: capitals(s[i]) == [s[i]]
  }

  lemma {:induction false} UpperAppend(a: string, b: string, capitals: Capitals)
    ensures Upper(a + b, capitals) == Upper(a, capitals) + Upper(b, capitals)
    decreases |b|
  {
    if b == [] {
      assert a + b == a;
    } else {
      var front, last := b[..|b| - 1], capitals(b[|b| - 1]);
      UpperAppend(a, front, capitals);
      assert (a + b)[..|a + b| - 1] == a + front;
      AppendAssociates(Upper(a, capitals), Upper(front, capitals), last);
    }
  }

  lemma {:induction false} UpperSettled(s: string, capitals: Capitals)
    requires Settled(s, capitals)
    ensures Upper(s, capitals) == s
  {
    if s != [] {
      UpperSettled(s[..|s| - 1], capitals);
    }
  }

  lemma {:induction false} DropSpaceAppend(a: string, b: string)
    ensures DropSpace(a + b) == DropSpace(a) + DropSpace(b)
    decreases |b|
  {
    if b == [] {
      assert a + b == a;
    } else {
      var front := b[..|b| - 1];
      DropSpaceAppend(a, front);
      assert (a + b)[..|a + b| - 1] == a + front;
      AppendAssociates(DropSpace(a), DropSpace(front), if IsSpace(b[|b| - 1]) then [] else [b[|b| - 1]]);
    }
  }

  lemma {:induction false} DropSpaceOf(s: string, space: bool)
    requires forall i | 0 <= i < |s| :: IsSpace(s[i]) == space
    ensures DropSpace(s) == if space then [] else s
  {
    if s != [] {
      DropSpaceOf(s[..|s| - 1], space);
    }
  }

  lemma {:induction false} DropPaddingOf(s: string, pad: string)
    requires forall i | 0 <= i < |pad| :: pad[i] == '='
    requires s == [] || s[|s| - 1] != '='
    ensures DropPadding(s + pad) == s
    decreases |pad|
  {
    if pad == [] {
      assert s + pad == s;
    } else {
      assert (s + pad)[..|s + pad| - 1] == s + pad[..|pad| - 1];
      DropPaddingOf(s, pad[..|pad| - 1]);
    }
  }

  ghost predicate InAlphabet(text: string) {
    forall i | 0 <= i < |text| :: IndexOf(text[i]).Some?
  }

  lemma PaddingIsNotInAlphabet(text: string, pad: string)
    requires pad != [] && forall i | 0 <= i < |pad| :: pad[i] == '='
    ensures !InAlphabet(text + pad)
  {
    assert (text + pad)[|text|] == '=';
  }

  /** Text that is good once its white space is gone does not end in padding. */
  lemma NoPadding(text: string)
    requires InAlphabet(DropSpace(text))
    ensures text == [] || text[|text| - 1] != '='
  {
    hide InAlphabet;
    if text != [] && text[|text| - 1] == '=' {
      PaddingIsNotInAlphabet(DropSpace(text[..|text| - 1]), "=");
    }
  }

  /**
   Padding at the end is dropped, and so is white space at the end, but not both: an
   otherwise good secret with padding and then white space is refused.
   */
  lemma PaddingThenSpace(value: string, pad: string, space: string, capitals: Capitals)
    requires InAlphabet(DropSpace(Upper(value, capitals)))
    requires Settled(pad, capitals) && forall i | 0 <= i < |pad| :: pad[i] == '='
    requires Settled(space, capitals) && forall i | 0 <= i < |space| :: IsSpace(space[i])
    ensures InAlphabet(Clean(value + pad + space, capitals)) <==> pad == [] || space == []
  {
    hide InAlphabet, Upper, DropSpace, DropPadding;
    var text := Upper(value, capitals);
    UpperAppend(value + pad, space, capitals);
    UpperAppend(value, pad, capitals);
    UpperSettled(pad, capitals);
    UpperSettled(space, capitals);
    if space == [] {
      NoPadding(text);
      DropPaddingOf(text, pad);
      assert text + pad + space == text + pad;
    } else {
      DropPaddingOf(text + pad + space, []);
      assert text + pad + space + [] == text + pad + space;
      DropSpaceAppend(text + pad, space);
      DropSpaceAppend(text, pad);
      DropSpaceOf(pad, false);
      DropSpaceOf(space, true);
      assert DropSpace(text) + pad + [] == DropSpace(text) + pad;
      if pad == [] {
        assert DropSpace(text) + pad == DropSpace(text);
      } else {
        PaddingIsNotInAlphabet(DropSpace(text), pad);
      }
    }
  }

  // ---------------------------------------------------------------------------
  // Decoding
  // ---------------------------------------------------------------------------

  function Indices(text: string): (indices: seq<nat>)
    requires InAlphabet(text)
    ensures |indices| == |text|
  {
    if text == [] then []
    else Indices(text[..|text| - 1]) + [IndexOf(text[|text| - 1]).value]
  }

  lemma {:induction false} IndexAt(text: string, i: nat)
    requires InAlphabet(text) && i < |text|
    ensures IndexOf(text[i]) == Some(Indices(text)[i])
  {
    if i < |text| - 1 { IndexAt(text[..|text| - 1], i); }
  }

  /** The result of a bitwise operation on JavaScript numbers: 32 bits, signed. */
  function ToInt32(x: int): int {
    (x + 0x8000_0000) % 0x1_0000_0000 - 0x8000_0000
  }

  /** `(bits << 5) | index`: the shift leaves the low five bits free. */
  function Accumulate(bits: int, index: nat): int {
    ToInt32(bits * 32) + index
  }

  /** `(bits >> shift) & 0xff`, the shift keeping the sign. */
  function TakeByte(bits: int, shift: nat): (byte: nat)
    ensures byte < 256
  {
    (bits / Pow2(shift)) % 256
  }

  lemma SmallPowers()
    ensures Pow2(0) == 1 && Pow2(1) == 2 && Pow2(2) == 4 && Pow2(3) == 8 && Pow2(4) == 16 && Pow2(5) == 32
    ensures Pow2(6) == 64 && Pow2(7) == 128 && Pow2(8) == 256 && Pow2(9) == 512 && Pow2(10) == 1024
    ensures Pow2(11) == 2048 && Pow2(12) == 4096
  {
    assert Pow2(3) == 8;
    assert Pow2(5) == 32;
    assert Pow2(7) == 128;
    assert Pow2(9) == 512;
    assert Pow2(11) == 2048;
  }

  lemma {:induction false} LowBitsAt(bits: int, index: nat, p: int, q: int)
    requires index < 32 && p > 0 && p * q == 0x800_0000
    ensures Accumulate(bits, index) % (32 * p) == (bits % p) * 32 + index
  {
    var wraps := (bits * 32 + 0x8000_0000) / 0x1_0000_0000;
    var h, t := bits / p, bits % p;
    assert Accumulate(bits, index) == bits * 32 + index - wraps * 0x1_0000_0000;
    assert bits == p * h + t;
    assert (32 * p) * (h - wraps * q) == 32 * (p * h) - 32 * (wraps * (p * q)) by {
      assert p * (h - wraps * q) == p * h - wraps * (p * q) by {
        assert p * (wraps * q) == wraps * (p * q);
      }
    }
    ModUnique(Accumulate(bits, index), 32 * p, h - wraps * q, t * 32 + index);
  }

  /** Despite the wrap-around, the low bits of the accumulator are the pending bits and the new five. */
  lemma LowBits(bits: int, index: nat, count: nat)
    requires index < 32 && count < 8
    ensures Accumulate(bits, index) % Pow2(count + 5) == (bits % Pow2(count)) * 32 + index
  {
    SmallPowers();
    match count
    case 0 => LowBitsAt(bits, index, 1, 0x800_0000);
    case 1 => LowBitsAt(bits, index, 2, 0x400_0000);
    case 2 => LowBitsAt(bits, index, 4, 0x200_0000);
    case 3 => LowBitsAt(bits, index, 8, 0x100_0000);
    case 4 => LowBitsAt(bits, index, 16, 0x80_0000);
    case 5 => LowBitsAt(bits, index, 32, 0x40_0000);
    case 6 => LowBitsAt(bits, index, 64, 0x20_0000);
    case 7 => LowBitsAt(bits, index, 128, 0x10_0000);
  }

  lemma EightMore(n: nat)
    ensures Pow2(n + 8) == 256 * Pow2(n)
  {
    assert Pow2(n + 2) == 4 * Pow2(n);
    assert Pow2(n + 4) == 4 * Pow2(n + 2);
    assert Pow2(n + 6) == 4 * Pow2(n + 4);
  }

  lemma Regroup(p: int, q: int, h: int, byte: int)
    requires q == 256 * h + byte
    ensures p * q == (256 * p) * h + byte * p
  {
  }

  lemma Bounded(p: int, byte: int, r: int)
    requires 0 <= r < p && 0 <= byte < 256
    ensures 0 <= byte * p + r < 256 * p
  {
  }

  lemma {:induction false} HighByteAt(bits: int, p: int)
    requires p > 0
    ensures bits % (256 * p) == (bits / p) % 256 * p + bits % p
  {
    var q, r := bits / p, bits % p;
    var byte := q % 256;
    Regroup(p, q, q / 256, byte);
    Bounded(p, byte, r);
    ModUnique(bits, 256 * p, q / 256, byte * p + r);
  }

  /** A full byte above `shift` pending bits. */
  lemma HighByte(bits: int, shift: nat)
    ensures bits % Pow2(shift + 8) == TakeByte(bits, shift) * Pow2(shift) + bits % Pow2(shift)
  {
    hide Pow2;
    EightMore(shift);
    HighByteAt(bits, Pow2(shift));
  }

  /** The low bits of the accumulator are the bits not yet written out; what is above them does not matter. */
  ghost predicate Pending(bits: int, pending: Bits) {
    bits % Pow2(|pending|) == FromBits(pending)
  }

  lemma Pushed(pending: Bits, index: nat)
    requires index < 32
    ensures FromBits(pending + BitsOf(index, 5)) == FromBits(pending) * 32 + index
  {
    SmallPowers();
    FromBitsAppend(pending, BitsOf(index, 5));
    FromBitsOf(index, 5);
  }

  lemma PushFive(bits: int, pending: Bits, index: nat)
    requires Pending(bits, pending) && |pending| < 8 && index < 32
    ensures Pending(Accumulate(bits, index), pending + BitsOf(index, 5))
  {
    hide Accumulate, FromBits, BitsOf, Pow2;
    LowBits(bits, index, |pending|);
    Pushed(pending, index);
  }

  lemma {:induction false} SplitUnique(p: int, high: int, low: int, byte: int, rest: int)
    requires p > 0 && 0 <= low < p && 0 <= rest < p && high * p + low == byte * p + rest
    ensures high == byte && low == rest
  {
    ModUnique(high * p + low, p, high, low);
    ModUnique(high * p + low, p, byte, rest);
  }

  /** Splitting a value into a byte and the rest splits its bits. */
  lemma {:induction false} Taken(bits: Bits, byte: nat, rest: nat)
    requires |bits| >= 8 && byte < 256 && rest < Pow2(|bits| - 8)
    requires FromBits(bits) == byte * Pow2(|bits| - 8) + rest
    ensures bits[..8] == BitsOf(byte, 8) && FromBits(bits[8..]) == rest
  {
    hide FromBits, BitsOf, Pow2;
    FromBitsAppend(bits[..8], bits[8..]);
    assert bits == bits[..8] + bits[8..];
    FromBitsBound(bits[8..]);
    SplitUnique(Pow2(|bits| - 8), FromBits(bits[..8]), FromBits(bits[8..]), byte, rest);
    ReadByte(byte);
    FromBitsInjective(bits[..8], BitsOf(byte, 8));
  }

  lemma ModBound(bits: int, count: nat)
    ensures 0 <= bits % Pow2(count) < Pow2(count)
  {
  }

  lemma TakeEight(bits: int, pending: Bits)
    requires Pending(bits, pending) && |pending| >= 8
    ensures pending[..8] == BitsOf(TakeByte(bits, |pending| - 8), 8) && Pending(bits, pending[8..])
  {
    hide TakeByte, FromBits, BitsOf, Pow2;
    var shift := |pending| - 8;
    HighByte(bits, shift);
    ModBound(bits, shift);
    Taken(pending, TakeByte(bits, shift), bits % Pow2(shift));
  }

  lemma StartsEmpty(text: string)
    ensures InAlphabet(text[..0]) && Indices(text[..0]) == []
    ensures Pending(0, []) && AllBits([], 8) == [] && AllBits([], 5) == []
  {
  }

  lemma NextSymbol(text: string, n: nat)
    requires n < |text| && InAlphabet(text[..n])
    ensures InAlphabet(text) ==> InAlphabet(text[..n + 1])
    ensures InAlphabet(text[..n + 1]) <==> IndexOf(text[n]).Some?
    ensures IndexOf(text[n]).Some? ==> Indices(text[..n + 1]) == Indices(text[..n]) + [IndexOf(text[n]).value]
  {
    assert text[..n + 1][..n] == text[..n] && text[..n + 1][n] == text[n];
  }

  lemma OneMoreSymbol(out: seq<nat>, pending: Bits, indices: seq<nat>, index: nat)
    requires AllBits(out, 8) + pending == AllBits(indices, 5)
    ensures AllBits(out, 8) + (pending + BitsOf(index, 5)) == AllBits(indices + [index], 5)
  {
    hide AllBits, BitsOf;
    AllBitsAppend(indices, [index], 5);
    AllBitsOne(index, 5);
    AppendAssociates(AllBits(out, 8), pending, BitsOf(index, 5));
  }

  lemma OneMoreByte(out: seq<nat>, pending: Bits, byte: nat)
    requires |pending| >= 8 && pending[..8] == BitsOf(byte, 8)
    ensures AllBits(out, 8) + pending == AllBits(out + [byte], 8) + pending[8..]
  {
    hide AllBits, BitsOf;
    AllBitsAppend(out, [byte], 8);
    AllBitsOne(byte, 8);
    AppendAssociates(AllBits(out, 8), pending[..8], pending[8..]);
    assert pending == pending[..8] + pending[8..];
  }

  /** The loop of `decodeBase32`. */
  method DecodeCleaned(text: string) returns (r: Option<seq<nat>>)
    ensures r.Some? <==> InAlphabet(text)
    ensures r.Some? ==> |r.value| == 5 * |text| / 8 && (forall i | 0 <= i < |r.value| :: r.value[i] < 256)
    ensures r.Some? ==> AllBits(r.value, 8) == AllBits(Indices(text), 5)[..8 * |r.value|]
  {
    hide *;
    StartsEmpty(text);
    var bits := 0;
    var bitCount := 0;
    var out: seq<nat> := [];
    ghost var pending: Bits := [];
    for n := 0 to |text|
      invariant InAlphabet(text[..n])
      invariant forall i | 0 <= i < |out| :: out[i] < 256
      invariant |pending| == bitCount < 8 && Pending(bits, pending)
      invariant AllBits(out, 8) + pending == AllBits(Indices(text[..n]), 5)
    {
      var index := IndexOf(text[n]);
      NextSymbol(text, n);
      if index.None? { return None; }
      OneMoreSymbol(out, pending, Indices(text[..n]), index.value);
      PushFive(bits, pending, index.value);
      bits := Accumulate(bits, index.value);
      bitCount := bitCount + 5;
      pending := pending + BitsOf(index.value, 5);
      if bitCount >= 8 {
        var byte := TakeByte(bits, bitCount - 8);
        TakeEight(bits, pending);
        OneMoreByte(out, pending, byte);
        out := out + [byte];
        bitCount := bitCount - 8;
        pending := pending[8..];
      }
    }
    assert text[..|text|] == text;
    r := Some(out);
  }

  /**
   Once cleaned, any text over the alphabet decodes to exactly its leading 8 * floor(5n / 8)
   bits; any other text is refused.
   */
  method DecodeBase32(value: string, capitals: Capitals) returns (r: Option<seq<nat>>)
    ensures var text := Clean(value, capitals);
            if !InAlphabet(text) then r.None?
            else
              && r.Some? && |r.value| == 5 * |text| / 8 && (forall i | 0 <= i < |r.value| :: r.value[i] < 256)
              && AllBits(r.value, 8) == AllBits(Indices(text), 5)[..8 * |r.value|]
  {
    var text := Clean(value, capitals);
    r := DecodeCleaned(text);
  }

  /**
   The bytes, bit by bit: bit k of what is decoded, counted from the most significant bit of
   the first byte, is bit k of the five-bit positions in the alphabet.
   */
  lemma DecodedBits(text: string, bytes: seq<nat>, k: nat)
    requires InAlphabet(text) && k < 8 * |bytes| && 8 * |bytes| <= 5 * |text|
    requires AllBits(bytes, 8) == AllBits(Indices(text), 5)[..8 * |bytes|]
    ensures k / 5 < |text| && IndexOf(text[k / 5]).Some?
    ensures bytes[k / 8] / Pow2(7 - k % 8) % 2 == IndexOf(text[k / 5]).value / Pow2(4 - k % 5) % 2
  {
    hide AllBits, Pow2, Indices, IndexOf;
    AllBitsAt(bytes, 8, k / 8, k % 8);
    AllBitsAt(Indices(text), 5, k / 5, k % 5);
    IndexAt(text, k / 5);
  }
}
