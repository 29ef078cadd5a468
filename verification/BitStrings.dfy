/** Bit strings, most significant bit first. */
module BitStrings {
  type bit = x: int | x == 0 || x == 1

  type Bits = seq<bit>

  function Pow2(n: nat): (p: nat)
    ensures p > 0
  {
    if n == 0 then 1 else 2 * Pow2(n - 1)
  }

  /** `(value >> i) & 1`. */
  function BitAt(value: nat, i: nat): bit {
    (value / Pow2(i)) % 2
  }

  /** The low `length` bits of a value. */
  function BitsOf(value: nat, length: nat): (b: Bits)
    ensures |b| == length
  {
    if length == 0 then [] else [BitAt(value, length - 1)] + BitsOf(value, length - 1)
  }

  /** `bits.reduce((value, bit) => (value << 1) | bit, 0)`. */
  function FromBits(bits: Bits): nat {
    if bits == [] then 0 else 2 * FromBits(bits[..|bits| - 1]) + bits[|bits| - 1]
  }

  /** Every value written with the same number of bits, one after another. */
  function AllBits(values: seq<nat>, width: nat): (b: Bits)
    ensures |b| == width * |values|
  {
    if values == [] then []
    else
      var front := values[..|values| - 1];
      assert width * |values| == width * |front| + width;
      AllBits(front, width) + BitsOf(values[|values| - 1], width)
  }

  lemma {:induction false} FromBitsAppend(a: Bits, b: Bits)
    ensures FromBits(a + b) == FromBits(a) * Pow2(|b|) + FromBits(b)
  {
    if b == [] {
      assert a + b == a;
    } else {
      var front := b[..|b| - 1];
      FromBitsAppend(a, front);
      assert (a + b)[..|a + b| - 1] == a + front;
      assert FromBits(a) * (2 * Pow2(|front|)) == 2 * (FromBits(a) * Pow2(|front|));
    }
  }

  lemma {:induction false} FromBitsBound(bits: Bits)
    ensures FromBits(bits) < Pow2(|bits|)
  {
    if bits != [] { FromBitsBound(bits[..|bits| - 1]); }
  }

  lemma HalfOf(p: int, q: int, h: int, b: bit)
    requires q == 2 * h + b
    ensures p * q == (2 * p) * h + b * p && (b == 0 ==> b * p == 0) && (b == 1 ==> b * p == p)
  {
  }

  lemma Multiple(d: int, k: int)
    requires d > 0
    ensures k >= 1 ==> d * k >= d
  {
    if k >= 1 {
      assert d * k == d * (k - 1) + d;
      assert d * (k - 1) >= 0;
    }
  }

  lemma {:induction false} ModUnique(value: int, d: int, q: int, r: int)
    requires d > 0 && 0 <= r < d && value == d * q + r
    ensures value / d == q && value % d == r
  {
    var q', r' := value / d, value % d;
    Multiple(d, q' - q);
    Multiple(d, q - q');
    assert d * (q' - q) == r - r' by {
      assert d * (q' - q) == d * q' - d * q;
    }
    assert d * (q - q') == r' - r;
  }

  /** One more bit at the top of a remainder. */
  lemma {:induction false} ModStep(value: nat, p: nat)
    requires p > 0
    ensures value % (2 * p) == (value / p) % 2 * p + value % p
  {
    var q, r := value / p, value % p;
    var h, b := q / 2, q % 2;
    HalfOf(p, q, h, b);
    ModUnique(value, 2 * p, h, b * p + r);
  }

  /** Writing the low bits and reading them back. */
  lemma {:induction false} FromBitsOf(value: nat, length: nat)
    ensures FromBits(BitsOf(value, length)) == value % Pow2(length)
  {
    if length > 0 {
      var top: Bits := [BitAt(value, length - 1)];
      FromBitsOf(value, length - 1);
      FromBitsAppend(top, BitsOf(value, length - 1));
      assert top[..0] == [];
      ModStep(value, Pow2(length - 1));
    }
  }

  /** A bit string of known length is determined by its value. */
  lemma {:induction false} FromBitsInjective(a: Bits, b: Bits)
    requires |a| == |b| && FromBits(a) == FromBits(b)
    ensures a == b
    decreases |a|
  {
    if a != [] {
      FromBitsInjective(a[..|a| - 1], b[..|b| - 1]);
      assert a == a[..|a| - 1] + [a[|a| - 1]] && b == b[..|b| - 1] + [b[|b| - 1]];
    }
  }

  lemma {:induction false} BitsOfFromBits(bits: Bits)
    ensures BitsOf(FromBits(bits), |bits|) == bits
  {
    FromBitsBound(bits);
    FromBitsOf(FromBits(bits), |bits|);
    ModUnique(FromBits(bits), Pow2(|bits|), 0, FromBits(bits));
    FromBitsInjective(BitsOf(FromBits(bits), |bits|), bits);
  }

  lemma {:induction false} AllBitsAppend(a: seq<nat>, b: seq<nat>, width: nat)
    ensures AllBits(a + b, width) == AllBits(a, width) + AllBits(b, width)
    decreases |b|
  {
    hide BitsOf, FromBits;
    if b == [] {
      assert a + b == a;
    } else {
      var front, last := b[..|b| - 1], BitsOf(b[|b| - 1], width);
      AllBitsAppend(a, front, width);
      assert (a + b)[..|a + b| - 1] == a + front;
      assert AllBits(a, width) + (AllBits(front, width) + last) == AllBits(a, width) + AllBits(front, width) + last;
    }
  }

  lemma AllBitsOne(value: nat, width: nat)
    ensures AllBits([value], width) == BitsOf(value, width)
  {
    assert [value][..0] == [];
    assert AllBits([], width) == [];
  }

  lemma ReadByte(byte: nat)
    requires byte < 256
    ensures FromBits(BitsOf(byte, 8)) == byte
  {
    assert Pow2(3) == 8;
    assert Pow2(6) == 64;
    assert Pow2(8) == 256;
    FromBitsOf(byte, 8);
  }

  /** Where the bits of one value stand. */
  lemma {:induction false} AllBitsSlice(values: seq<nat>, i: nat)
    requires i < |values|
    ensures AllBits(values, 8)[8 * i..8 * i + 8] == BitsOf(values[i], 8)
    decreases |values|
  {
    hide BitsOf;
    var front := values[..|values| - 1];
    if i < |front| {
      AllBitsSlice(front, i);
      assert 8 * i + 8 <= |AllBits(front, 8)|;
      assert AllBits(values, 8)[8 * i..8 * i + 8] == AllBits(front, 8)[8 * i..8 * i + 8];
    }
  }

  lemma {:induction false} BitOf(value: nat, length: nat, i: nat)
    requires i < length
    ensures BitsOf(value, length)[i] == value / Pow2(length - 1 - i) % 2
  {
    if i > 0 { BitOf(value, length - 1, i - 1); }
  }

  /** The bits of a list of values: value by value, the most significant bit of each first. */
  lemma {:induction false} AllBitsAt(values: seq<nat>, width: nat, i: nat, j: nat)
    requires i < |values| && j < width
    ensures width * i + j < |AllBits(values, width)|
    ensures AllBits(values, width)[width * i + j] == values[i] / Pow2(width - 1 - j) % 2
    decreases |values|
  {
    hide BitsOf, Pow2;
    var n := |values| - 1;
    var front := values[..n];
    assert width * |values| == width * n + width;
    if i < n {
      AllBitsAt(front, width, i, j);
    } else {
      BitOf(values[n], width, j);
    }
  }
}
