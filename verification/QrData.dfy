/** `encodeData` of qr.ts: a byte segment as data codewords (section 7.4.5 of ISO/IEC 18004:2015). */
module QrData {
  import opened BitStrings
  import opened ByteStrings
  import opened Wrappers

  const BYTE_MODE: nat := 4
  const FIRST_PAD: nat := 0xEC
  const SECOND_PAD: nat := 0x11

  ghost predicate AllBytes(values: seq<nat>) {
    forall i | 0 <= i < |values| :: values[i] < 256
  }

  /** `appendBits`: a length that is not positive appends nothing. */
  method AppendBits(bits: Bits, value: nat, length: int) returns (r: Bits)
    ensures r == bits + if length <= 0 then [] else BitsOf(value, length)
  {
    r := bits;
    if length <= 0 { return; }
    var i := length - 1;
    while i >= 0
      invariant -1 <= i < length
      invariant r + BitsOf(value, i + 1) == bits + BitsOf(value, length)
    {
      AppendAssociates(r, [BitAt(value, i)], BitsOf(value, i));
      r := r + [BitAt(value, i)];
      i := i - 1;
    }
    assert r + [] == r;
  }

  method AppendBytes(bits: Bits, data: seq<nat>) returns (r: Bits)
    ensures r == bits + AllBits(data, 8)
  {
    r := bits;
    for i := 0 to |data|
      invariant r == bits + AllBits(data[..i], 8)
    {
      assert data[..i + 1][..i] == data[..i];
      AppendAssociates(bits, AllBits(data[..i], 8), BitsOf(data[i], 8));
      r := AppendBits(r, data[i], 8);
    }
    assert data[..|data|] == data;
  }

  lemma ByteOfBits(bits: Bits)
    requires |bits| == 8
    ensures FromBits(bits) < 256 && BitsOf(FromBits(bits), 8) == bits
  {
    assert Pow2(3) == 8;
    assert Pow2(6) == 64;
    assert Pow2(8) == 256;
    FromBitsBound(bits);
    BitsOfFromBits(bits);
  }

  /** Cut a bit string into bytes. */
  method PackBits(bits: Bits) returns (codewords: seq<nat>)
    requires |bits| % 8 == 0
    ensures AllBits(codewords, 8) == bits && AllBytes(codewords)
  {
    hide BitsOf, FromBits, Pow2;
    codewords := [];
    var i := 0;
    while i < |bits|
      invariant 0 <= i <= |bits| && i % 8 == 0
      invariant AllBits(codewords, 8) == bits[..i] && AllBytes(codewords)
    {
      var chunk := bits[i..i + 8];
      var value := FromBits(chunk);
      ByteOfBits(chunk);
      AllBitsAppend(codewords, [value], 8);
      AllBitsOne(value, 8);
      assert bits[..i] + chunk == bits[..i + 8];
      codewords := codewords + [value];
      i := i + 8;
    }
    assert bits[..|bits|] == bits;
  }

  /** The mode indicator, the length and the payload. */
  ghost function Segment(data: seq<nat>): Bits {
    BitsOf(BYTE_MODE, 4) + BitsOf(|data|, 8) + AllBits(data, 8)
  }

  function ReadBits(bits: Bits): Option<(nat, seq<nat>)> {
    if |bits| < 12 then None
    else
      var length := FromBits(bits[4..12]);
      if |bits| < 12 + 8 * length then None
      else
        var data := seq(length, i requires 0 <= i < length => FromBits(bits[12 + 8 * i..20 + 8 * i]));
        Some((FromBits(bits[..4]), data))
  }

  /** A reader: mode, then an 8-bit length, then that many bytes. */
  function ReadSegment(codewords: seq<nat>): Option<(nat, seq<nat>)> {
    ReadBits(AllBits(codewords, 8))
  }

  /** What `encodeData` appends behind the packed bits: the two pad codewords in turn. */
  function Padding(count: nat): (pad: seq<nat>)
    ensures |pad| == count && AllBytes(pad)
  {
    seq(count, k => if k % 2 == 0 then FIRST_PAD else SECOND_PAD)
  }

  method PadCodewords(packed: seq<nat>, dataCodewords: nat) returns (codewords: seq<nat>)
    ensures codewords == packed + Padding(if |packed| < dataCodewords then dataCodewords - |packed| else 0)
  {
    codewords := packed;
    var pad := FIRST_PAD;
    ghost var done := 0;
    assert packed == packed + Padding(0);
    while |codewords| < dataCodewords
      invariant |packed| >= dataCodewords ==> done == 0
      invariant |packed| < dataCodewords ==> |packed| + done <= dataCodewords
      invariant codewords == packed + Padding(done)
      invariant pad == if done % 2 == 0 then FIRST_PAD else SECOND_PAD
    {
      assert Padding(done + 1) == Padding(done) + [pad];
      codewords := codewords + [pad];
      pad := if pad == FIRST_PAD then SECOND_PAD else FIRST_PAD;
      done := done + 1;
    }
  }

  function NoBits(count: nat): Bits {
    seq(count, _ => 0)
  }

  lemma {:induction false} BitsOfZero(length: nat)
    ensures BitsOf(0, length) == NoBits(length)
  {
    if length > 0 { BitsOfZero(length - 1); }
  }

  /** The terminator, then zero bits up to a byte boundary. */
  method TerminateBits(bits: Bits, capacityBits: nat) returns (r: Bits)
    ensures |r| % 8 == 0 && |r| >= |bits| && r == bits + NoBits(|r| - |bits|)
    ensures |bits| % 8 == 4 && capacityBits % 8 == 0 ==> |r| == |bits| + 4
  {
    hide BitsOf;
    ghost var half := |bits| % 8 == 4 && capacityBits % 8 == 0;
    var length := if capacityBits - |bits| < 4 then capacityBits - |bits| else 4;
    r := AppendBits(bits, 0, length);
    if length > 0 { BitsOfZero(length); }
    while |r| % 8 != 0
      invariant |r| >= |bits| && r == bits + NoBits(|r| - |bits|)
      invariant half ==> |r| == |bits| + 4 || |r| == |bits| || |bits| < |r| < |bits| + 4
      decreases if |r| % 8 == 0 then 0 else 8 - |r| % 8
    {
      r := r + [0];
    }
  }

  lemma SegmentParts(bits: Bits, data: seq<nat>)
    requires bits == [] + BitsOf(BYTE_MODE, 4) + BitsOf(|data|, 8) + AllBits(data, 8)
    ensures bits == Segment(data) && |Segment(data)| == 12 + 8 * |data|
  {
    assert [] + BitsOf(BYTE_MODE, 4) == BitsOf(BYTE_MODE, 4);
  }

  lemma ReadMode()
    ensures FromBits(BitsOf(BYTE_MODE, 4)) == BYTE_MODE
  {
    assert Pow2(4) == 16 by { assert Pow2(2) == 4; }
    FromBitsOf(BYTE_MODE, 4);
  }

  /** Anything that starts with the segment of a short payload reads back as that payload. */
  lemma {:induction false} SegmentReads(data: seq<nat>, codewords: seq<nat>)
    requires AllBytes(data) && |data| < 256
    ensures Segment(data) <= AllBits(codewords, 8) ==> ReadSegment(codewords) == Some((BYTE_MODE, data))
  {
    hide AllBits, BitsOf, FromBits;
    var bits := AllBits(codewords, 8);
    if !(Segment(data) <= bits) { return; }
    var mode, length, payload := BitsOf(BYTE_MODE, 4), BitsOf(|data|, 8), AllBits(data, 8);
    assert Segment(data) == mode + length + payload;
    assert bits[..4] == mode && bits[4..12] == length && bits[12..12 + 8 * |data|] == payload;
    ReadByte(|data|);
    ReadMode();
    forall i | 0 <= i < |data| ensures FromBits(bits[12 + 8 * i..20 + 8 * i]) == data[i] {
      AllBitsSlice(data, i);
      assert bits[12 + 8 * i..20 + 8 * i] == payload[8 * i..8 * i + 8];
      ReadByte(data[i]);
    }
    assert FromBits(bits[4..12]) == |data| && |bits| >= 12 + 8 * |data|;
    assert ReadSegment(codewords).value.1 == data;
  }

  lemma SevenPowers()
    ensures Pow2(0) == 1 && Pow2(1) == 2 && Pow2(2) == 4 && Pow2(3) == 8
    ensures Pow2(4) == 16 && Pow2(5) == 32 && Pow2(6) == 64 && Pow2(7) == 128
  {
    assert Pow2(2) == 4;
    assert Pow2(4) == 16;
    assert Pow2(6) == 64;
  }

  lemma HighNibble(value: nat)
    ensures BitsOf(value, 8)[..4] == BitsOf(value / 16, 4)
  {
    hide BitsOf, Pow2;
    SevenPowers();
    assert value / 128 == value / 16 / 8 && value / 64 == value / 16 / 4 && value / 32 == value / 16 / 2;
    forall i | 0 <= i < 4 ensures BitsOf(value, 8)[i] == BitsOf(value / 16, 4)[i] {
      BitOf(value, 8, i);
      BitOf(value / 16, 4, i);
      assert i == 0 || i == 1 || i == 2 || i == 3;
    }
  }

  lemma LowNibble(value: nat)
    ensures BitsOf(value, 8)[4..] == BitsOf(value, 4)
  {
    hide BitsOf, Pow2;
    forall i | 0 <= i < 4 ensures BitsOf(value, 8)[4 + i] == BitsOf(value, 4)[i] {
      BitOf(value, 8, 4 + i);
      BitOf(value, 4, i);
    }
  }

  lemma FourBits()
    ensures Pow2(4) == 16 && BitsOf(0, 4) == NoBits(4)
  {
    SevenPowers();
    BitsOfZero(4);
  }

  /** A byte of two nibbles. */
  lemma Nibbles(byte: nat, high: nat, low: nat)
    requires byte < 256 && BitsOf(byte, 8) == BitsOf(high, 4) + BitsOf(low, 4)
    ensures byte == high % 16 * 16 + low % 16
  {
    hide BitsOf, FromBits, Pow2;
    FourBits();
    ReadByte(byte);
    FromBitsAppend(BitsOf(high, 4), BitsOf(low, 4));
    FromBitsOf(high, 4);
    FromBitsOf(low, 4);
  }

  /** The first nibble of what follows a given number of values, and the last one before it. */
  lemma NibbleOfData(data: seq<nat>, i: nat)
    requires i < |data|
    ensures AllBits(data, 8)[8 * i..8 * i + 4] == BitsOf(data[i] / 16, 4)
    ensures AllBits(data, 8)[8 * i + 4..8 * i + 8] == BitsOf(data[i], 4)
  {
    hide AllBits, BitsOf;
    AllBitsSlice(data, i);
    var all := AllBits(data, 8);
    HighNibble(data[i]);
    LowNibble(data[i]);
    assert all[8 * i..8 * i + 8][..4] == all[8 * i..8 * i + 4];
    assert all[8 * i..8 * i + 8][4..] == all[8 * i + 4..8 * i + 8];
  }

  /** The nibbles of the stream: the mode, the length, the payload, and four zero bits. */
  function HighOf(data: seq<nat>, i: nat): nat
    requires i <= |data| + 1
  {
    if i == 0 then 4 else if i == 1 then |data| else data[i - 2]
  }

  function LowOf(data: seq<nat>, i: nat): nat
    requires i <= |data| + 1
  {
    if i == 0 then |data| / 16 else if i <= |data| then data[i - 1] / 16 else 0
  }

  lemma StreamHigh(data: seq<nat>, i: nat)
    requires i <= |data| + 1
    ensures var stream := Segment(data) + NoBits(4);
            |stream| == 8 * (|data| + 2) && stream[8 * i..8 * i + 4] == BitsOf(HighOf(data, i), 4)
  {
    hide AllBits, BitsOf;
    var mode, length, payload := BitsOf(BYTE_MODE, 4), BitsOf(|data|, 8), AllBits(data, 8);
    var stream := mode + length + payload + NoBits(4);
    if i == 0 {
      assert stream[0..4] == mode;
    } else if i == 1 {
      LowNibble(|data|);
      assert stream[8..12] == length[4..];
    } else {
      NibbleOfData(data, i - 2);
      assert stream[8 * i..8 * i + 4] == payload[8 * (i - 2) + 4..8 * (i - 2) + 8];
    }
  }

  lemma StreamLow(data: seq<nat>, i: nat)
    requires i <= |data| + 1
    ensures var stream := Segment(data) + NoBits(4);
            |stream| == 8 * (|data| + 2) && stream[8 * i + 4..8 * i + 8] == BitsOf(LowOf(data, i), 4)
  {
    hide AllBits, BitsOf;
    var mode, length, payload := BitsOf(BYTE_MODE, 4), BitsOf(|data|, 8), AllBits(data, 8);
    var stream := mode + length + payload + NoBits(4);
    if i == 0 {
      HighNibble(|data|);
      assert stream[4..8] == length[..4];
    } else if i <= |data| {
      NibbleOfData(data, i - 1);
      assert stream[8 * i + 4..8 * i + 8] == payload[8 * (i - 1)..8 * (i - 1) + 4];
    } else {
      FourBits();
      assert stream[8 * i + 4..8 * i + 8] == NoBits(4);
    }
  }

  lemma Halves(s: Bits, i: nat)
    requires 8 * i + 8 <= |s|
    ensures s[8 * i..8 * i + 8] == s[8 * i..8 * i + 4] + s[8 * i + 4..8 * i + 8]
  {
  }

  lemma CodewordAt(data: seq<nat>, packed: seq<nat>, k: nat)
    requires AllBytes(packed) && AllBits(packed, 8) == Segment(data) + NoBits(4) && k <= |data| + 1
    ensures |packed| == |data| + 2 && packed[k] == HighOf(data, k) % 16 * 16 + LowOf(data, k) % 16
  {
    hide AllBits, BitsOf, Segment, HighOf, LowOf, NoBits;
    StreamHigh(data, k);
    StreamLow(data, k);
    AllBitsSlice(packed, k);
    Halves(Segment(data) + NoBits(4), k);
    Nibbles(packed[k], HighOf(data, k), LowOf(data, k));
  }

  lemma NibblesAt(data: seq<nat>, k: nat)
    requires AllBytes(data) && 1 <= k <= |data| + 1
    ensures HighOf(data, k) == if k == 1 then |data| else data[k - 2]
    ensures LowOf(data, k) == if k <= |data| then data[k - 1] / 16 else 0
    ensures LowOf(data, k) % 16 == LowOf(data, k)
  {
    if k <= |data| {
      var byte := data[k - 1];
      assert byte < 256;
      assert byte / 16 < 16;
    }
  }

  lemma CodewordIs(data: seq<nat>, packed: seq<nat>, k: nat)
    requires AllBytes(data) && AllBytes(packed) && AllBits(packed, 8) == Segment(data) + NoBits(4)
    requires 1 <= k <= |data| + 1
    ensures |packed| == |data| + 2
    ensures packed[k] == (if k == 1 then |data| else data[k - 2]) % 16 * 16
                         + if k <= |data| then data[k - 1] / 16 else 0
  {
    hide AllBits, BitsOf, Segment, NoBits, HighOf, LowOf, AllBytes;
    CodewordAt(data, packed, k);
    NibblesAt(data, k);
  }

  /** The codewords of the stream: mode 4 and the length, then the payload, half a byte further on. */
  lemma CodewordsAre(data: seq<nat>, packed: seq<nat>)
    requires AllBytes(data) && AllBytes(packed) && AllBits(packed, 8) == Segment(data) + NoBits(4)
    ensures |packed| == |data| + 2 && packed[0] == 4 * 16 + |data| / 16 % 16
    ensures forall k | 1 <= k <= |data| + 1 ::
              packed[k] == (if k == 1 then |data| else data[k - 2]) % 16 * 16
                           + if k <= |data| then data[k - 1] / 16 else 0
  {
    hide AllBits, BitsOf, Segment, NoBits, AllBytes;
    CodewordAt(data, packed, 0);
    forall k | 1 <= k <= |data| + 1
      ensures packed[k] == (if k == 1 then |data| else data[k - 2]) % 16 * 16
                           + if k <= |data| then data[k - 1] / 16 else 0
    {
      CodewordIs(data, packed, k);
    }
  }

  lemma StillSegment(data: seq<nat>, packed: seq<nat>, pad: seq<nat>)
    requires AllBytes(data)
    ensures |data| < 256 && Segment(data) <= AllBits(packed, 8) ==> ReadSegment(packed + pad) == Some((BYTE_MODE, data))
  {
    hide ReadSegment, AllBits, Segment;
    AllBitsAppend(packed, pad, 8);
    if |data| < 256 { SegmentReads(data, packed + pad); }
  }

  /** The padding behind the packed codewords. */
  lemma PaddingIs(packed: seq<nat>, count: nat)
    requires AllBytes(packed)
    ensures AllBytes(packed + Padding(count)) && Padding(0) == []
    ensures forall k | |packed| <= k < |packed| + count ::
              (packed + Padding(count))[k] == if (k - |packed|) % 2 == 0 then 236 else 17
  {
  }

  /**
   For a payload that fits, the codewords fill the symbol exactly, a reader gets the payload
   back, and the rest is the alternating padding.
   */
  method EncodeData(data: seq<nat>, dataCodewords: nat) returns (codewords: seq<nat>)
    requires AllBytes(data)
    ensures AllBytes(codewords)
    ensures |codewords| == if |data| + 2 <= dataCodewords then dataCodewords else |data| + 2
    ensures |data| + 2 <= dataCodewords ==> codewords[|data| + 2..] == Padding(dataCodewords - |data| - 2)
    ensures |data| < 256 ==> ReadSegment(codewords) == Some((BYTE_MODE, data))
    ensures codewords[0] == 4 * 16 + |data| / 16 % 16
    ensures forall k | 1 <= k <= |data| + 1 ::
              codewords[k] == (if k == 1 then |data| else data[k - 2]) % 16 * 16
                              + if k <= |data| then data[k - 1] / 16 else 0
    ensures forall k | |data| + 2 <= k < |codewords| :: codewords[k] == if (k - |data|) % 2 == 0 then 236 else 17
  {
    hide AllBits, BitsOf, ReadSegment, Segment, NoBits, Padding, AllBytes;
    var bits: Bits := [];
    bits := AppendBits(bits, BYTE_MODE, 4);
    bits := AppendBits(bits, |data|, 8); // every symbol has a version of at most 9
    bits := AppendBytes(bits, data);
    SegmentParts(bits, data);
    bits := TerminateBits(bits, dataCodewords * 8);
    assert bits == Segment(data) + NoBits(4);
    var packed := PackBits(bits);
    CodewordsAre(data, packed);
    codewords := PadCodewords(packed, dataCodewords);
    PaddingIs(packed, |codewords| - |packed|);
    StillSegment(data, packed, codewords[|packed|..]);
    assert codewords == packed + codewords[|packed|..];
  }

}
