/** Arithmetic in GF(2^8) modulo x^8 + x^4 + x^3 + x^2 + 1, as qr.ts does it (section 7.5.2 of ISO/IEC 18004:2015). */
module Gf256 {
  /** A byte, in a word wide enough for the carry of a doubling. */
  type gf = x: bv16 | x < 0x100

  lemma XorBound(a: bv16, b: bv16)
    requires a < 0x100 && b < 0x100
    ensures a ^ b < 0x100
  {
  }

  function Add(a: gf, b: gf): gf {
    XorBound(a, b);
    a ^ b
  }

  /** Multiplication by x: shift, then reduce. */
  function Double(a: gf): gf {
    if (a << 1) & 0x100 != 0 then (a << 1) ^ 0x11D else a << 1
  }

  function Half(a: gf): (h: gf)
    ensures a != 0 ==> h < a
  {
    a >> 1
  }

  /** `a` if `b` is odd. */
  function Pick(b: gf, a: gf): gf {
    if b & 1 != 0 then a else 0
  }

  /** Russian-peasant product: double the left factor, halve the right one. */
  function Mul(a: gf, b: gf): gf
    decreases b
  {
    if b == 0 then 0 else Add(Pick(b, a), Mul(Double(a), Half(b)))
  }

  function Pow(a: gf, n: nat): gf {
    if n == 0 then 1 else Mul(Pow(a, n - 1), a)
  }

  lemma AddLaws(a: gf, b: gf, c: gf, d: gf)
    ensures Add(a, b) == Add(b, a)
    ensures Add(Add(a, b), Add(c, d)) == Add(Add(a, c), Add(b, d))
    ensures Add(Add(a, b), c) == Add(a, Add(b, c))
    ensures Add(a, 0) == a && Add(0, a) == a && Add(a, a) == 0
  {
  }

  /** What one round of the loop computes. */
  lemma OneRound(a: gf, b: gf, result: gf)
    ensures (if b & 1 != 0 then result ^ a else result) == Add(result, Pick(b, a))
    ensures (if (a << 1) & 0x100 != 0 then (a << 1) ^ 0x11D else a << 1) == Double(a)
    ensures b >> 1 == Half(b) && (b != 0 ==> b >> 1 < b)
  {
  }

  method GfMultiply(x: gf, y: gf) returns (product: gf)
    ensures product == Mul(x, y)
  {
    hide Add, Double, Half, Pick;
    var a: bv16, b: bv16, result: bv16 := x, y, 0;
    AddLaws(Mul(x, y), 0, 0, 0);
    while b > 0
      invariant a < 0x100 && b < 0x100 && result < 0x100
      invariant Add(result, Mul(a, b)) == Mul(x, y)
      decreases b
    {
      OneRound(a, b, result);
      AddLaws(result, Pick(b, a), Mul(Double(a), Half(b)), 0);
      if b & 1 != 0 { result := result ^ a; }
      a := a << 1;
      if a & 0x100 != 0 { a := a ^ 0x11D; }
      b := b >> 1;
    }
    AddLaws(result, 0, 0, 0);
    product := result;
  }

  method GfPow(x: gf, power: nat) returns (result: gf)
    ensures result == Pow(x, power)
  {
    result := 1;
    for i := 0 to power
      invariant result == Pow(x, i)
    {
      result := GfMultiply(result, x);
    }
  }

  // ---------------------------------------------------------------------------
  // Bit-level facts
  // ---------------------------------------------------------------------------

  lemma AddCancels(a: gf, b: gf, c: gf)
    requires Add(a, b) == Add(a, c)
    ensures b == c
  {
  }

  function Shifted(a: gf): bv16 {
    a << 1
  }

  function Xor(p: bv16, q: bv16): bv16 {
    p ^ q
  }

  /** The reduction without its branch: bit 8 is cleared and added to bits 0, 2, 3 and 4. */
  function Reduced(p: bv16): bv16 {
    p ^ ((p >> 8) & 1) ^ ((p >> 6) & 4) ^ ((p >> 5) & 8) ^ ((p >> 4) & 16) ^ (p & 0x100)
  }

  lemma DoubleReduces(a: gf)
    ensures Double(a) == Reduced(Shifted(a))
  {
  }

  lemma ReducedAdds(p: bv16, q: bv16)
    ensures Reduced(Xor(p, q)) == Xor(Reduced(p), Reduced(q))
  {
  }

  lemma ShiftedAdds(a: gf, b: gf)
    ensures Shifted(Add(a, b)) == Xor(Shifted(a), Shifted(b)) && Add(a, b) == Xor(a, b)
  {
  }

  lemma DoubleAdds(a: gf, b: gf)
    ensures Double(Add(a, b)) == Add(Double(a), Double(b))
  {
    hide *;
    ShiftedAdds(a, b);
    ShiftedAdds(Double(a), Double(b));
    ReducedAdds(Shifted(a), Shifted(b));
    DoubleReduces(a);
    DoubleReduces(b);
    DoubleReduces(Add(a, b));
  }

  lemma HalfAdds(a: gf, b: gf)
    ensures Half(Add(a, b)) == Add(Half(a), Half(b))
  {
  }

  lemma PickAdds(a: gf, b: gf, c: gf)
    ensures Pick(Add(a, b), c) == Add(Pick(a, c), Pick(b, c))
    ensures Pick(c, Add(a, b)) == Add(Pick(c, a), Pick(c, b))
  {
  }

  lemma PickLaws(a: gf, b: gf)
    ensures Pick(0, a) == 0 && Pick(1, a) == a && Half(0) == 0 && Half(1) == 0
    ensures Double(0) == 0 && Double(Pick(b, a)) == Pick(b, Double(a))
    ensures Pick(b, a) == a || Pick(b, a) == 0
    ensures Pick(b, 1) == 1 ==> forall c :: Pick(b, c) == c
    ensures Pick(b, 1) == 0 ==> forall c :: Pick(b, c) == 0
    ensures Pick(b, 1) == 1 || Pick(b, 1) == 0
  {
  }

  /** Every byte is its lowest bit plus x times the rest. */
  lemma Halve(b: gf)
    ensures b == Add(Pick(b, 1), Double(Half(b)))
  {
  }

  // ---------------------------------------------------------------------------
  // Field laws
  // ---------------------------------------------------------------------------

  lemma MulStep(a: gf, b: gf)
    ensures Mul(a, b) == Add(Pick(b, a), Mul(Double(a), Half(b)))
  {
    hide Add, Double, Half, Pick;
    if b == 0 {
      PickLaws(a, b);
      AddLaws(0, 0, 0, 0);
    }
  }

  lemma {:induction false} MulAddsLeft(a: gf, b: gf, c: gf)
    ensures Mul(Add(a, b), c) == Add(Mul(a, c), Mul(b, c))
    decreases c
  {
    hide Add, Double, Half, Pick;
    AddLaws(0, 0, 0, 0);
    if c != 0 {
      DoubleAdds(a, b);
      MulAddsLeft(Double(a), Double(b), Half(c));
      PickAdds(a, b, c);
      AddLaws(Pick(c, a), Pick(c, b), Mul(Double(a), Half(c)), Mul(Double(b), Half(c)));
    }
  }

  lemma {:induction false} MulDoubleLeft(a: gf, b: gf)
    ensures Mul(Double(a), b) == Double(Mul(a, b))
    decreases b
  {
    hide Add, Double, Half, Pick;
    PickLaws(a, b);
    if b != 0 {
      MulDoubleLeft(Double(a), Half(b));
      DoubleAdds(Pick(b, a), Mul(Double(a), Half(b)));
    }
  }

  lemma {:induction false} MulAddsRight(a: gf, b: gf, c: gf)
    ensures Mul(a, Add(b, c)) == Add(Mul(a, b), Mul(a, c))
    decreases b, c
  {
    hide Add, Double, Half, Pick;
    AddLaws(c, 0, 0, 0);
    AddLaws(Mul(a, c), 0, 0, 0);
    if b != 0 {
      MulAddsRight(Double(a), Half(b), Half(c));
      HalfAdds(b, c);
      PickAdds(b, c, a);
      MulStep(a, b);
      MulStep(a, c);
      MulStep(a, Add(b, c));
      AddLaws(Pick(b, a), Pick(c, a), Mul(Double(a), Half(b)), Mul(Double(a), Half(c)));
    }
  }

  lemma {:induction false} MulOne(a: gf)
    ensures Mul(1, a) == a && Mul(a, 1) == a && Mul(0, a) == 0 && Mul(a, 0) == 0
    decreases a
  {
    hide Add, Double, Half, Pick;
    AddLaws(a, 0, 0, 0);
    PickLaws(a, 1);
    MulStep(a, 1);
    MulAddsLeft(0, 0, a);
    AddLaws(Mul(0, a), 0, 0, 0);
    AddLaws(0, 0, 0, 0);
    if a != 0 {
      MulOne(Half(a));
      MulDoubleLeft(1, Half(a));
      Halve(a);
    }
  }

  lemma {:induction false} MulCommutes(a: gf, b: gf)
    ensures Mul(a, b) == Mul(b, a)
    decreases a
  {
    hide Add, Double, Half, Pick;
    MulOne(b);
    if a != 0 {
      var h := Half(a);
      MulCommutes(h, b);
      Halve(a);
      MulAddsLeft(Pick(a, 1), Double(h), b);
      MulDoubleLeft(h, b);
      MulStep(b, a);
      MulDoubleLeft(b, h);
      PickLaws(1, a);
      assert Mul(Pick(a, 1), b) == Pick(a, b);
    }
  }

  lemma MulDoubleRight(a: gf, b: gf)
    ensures Mul(a, Double(b)) == Double(Mul(a, b))
  {
    hide Add, Double, Half, Pick;
    MulCommutes(a, Double(b));
    MulDoubleLeft(b, a);
    MulCommutes(a, b);
  }

  lemma {:induction false} MulAssociates(a: gf, b: gf, c: gf)
    ensures Mul(Mul(a, b), c) == Mul(a, Mul(b, c))
    decreases c
  {
    hide Add, Double, Half, Pick;
    MulOne(a);
    if c != 0 {
      var h := Half(c);
      MulAssociates(a, b, h);
      MulStep(Mul(a, b), c);
      MulDoubleLeft(Mul(a, b), h);
      MulStep(b, c);
      MulDoubleLeft(b, h);
      MulAddsRight(a, Pick(c, b), Double(Mul(b, h)));
      MulDoubleRight(a, Mul(b, h));
      PickLaws(b, c);
      PickLaws(Mul(a, b), c);
      assert Mul(a, Pick(c, b)) == Pick(c, Mul(a, b));
    }
  }

  // ---------------------------------------------------------------------------
  // No zero divisors
  // ---------------------------------------------------------------------------

  lemma DoubleNonZero(a: gf)
    requires a != 0
    ensures Double(a) != 0
  {
  }

  lemma EvenHalf(b: gf)
    requires b != 0 && b & 1 == 0
    ensures Half(b) != 0 && forall a :: Pick(b, a) == 0
  {
  }

  /** One step of the product, in plain word operations. */
  lemma WordStep(a: gf, b: gf)
    ensures Mul(a, b) == Xor(Pick(b, a), Mul(Double(a), Half(b)))
  {
    hide Double, Half, Pick;
    MulStep(a, b);
  }

  /** A product without recursion: the eight addends. */
  function Unrolled(a: gf, b: gf): bv16 {
    var a1, b1 := Double(a), Half(b);
    var a2, b2 := Double(a1), Half(b1);
    var a3, b3 := Double(a2), Half(b2);
    var a4, b4 := Double(a3), Half(b3);
    var a5, b5 := Double(a4), Half(b4);
    var a6, b6 := Double(a5), Half(b5);
    var a7, b7 := Double(a6), Half(b6);
    Xor(Pick(b, a), Xor(Pick(b1, a1), Xor(Pick(b2, a2), Xor(Pick(b3, a3),
    Xor(Pick(b4, a4), Xor(Pick(b5, a5), Xor(Pick(b6, a6), Xor(Pick(b7, a7), 0))))))))
  }

  lemma EightHalves(b: gf)
    ensures Half(Half(Half(Half(Half(Half(Half(Half(b)))))))) == 0
  {
  }

  lemma MulZero(a: gf)
    ensures Mul(a, 0) == 0
  {
  }

  lemma MulUnrolls(a: gf, b: gf)
    ensures Mul(a, b) == Unrolled(a, b)
  {
    hide Add, Mul, Double, Half, Pick, Xor;
    var a1, b1 := Double(a), Half(b);
    var a2, b2 := Double(a1), Half(b1);
    var a3, b3 := Double(a2), Half(b2);
    var a4, b4 := Double(a3), Half(b3);
    var a5, b5 := Double(a4), Half(b4);
    var a6, b6 := Double(a5), Half(b5);
    var a7, b7 := Double(a6), Half(b6);
    WordStep(a, b);
    WordStep(a1, b1);
    WordStep(a2, b2);
    WordStep(a3, b3);
    WordStep(a4, b4);
    WordStep(a5, b5);
    WordStep(a6, b6);
    WordStep(a7, b7);
    EightHalves(b);
    MulZero(Double(a7));
  }

  /** The eight addends of a product of two odd factors never cancel. */
  lemma OddSumNonZero(a: gf, b: gf)
    requires a & 1 != 0 && b & 1 != 0
    ensures var a1, b1 := Double(a), Half(b);
            var a2, b2 := Double(a1), Half(b1);
            var a3, b3 := Double(a2), Half(b2);
            var a4, b4 := Double(a3), Half(b3);
            var a5, b5 := Double(a4), Half(b4);
            var a6, b6 := Double(a5), Half(b5);
            var a7, b7 := Double(a6), Half(b6);
            Half(b7) == 0 &&
            Xor(Pick(b, a), Xor(Pick(b1, a1), Xor(Pick(b2, a2), Xor(Pick(b3, a3),
            Xor(Pick(b4, a4), Xor(Pick(b5, a5), Xor(Pick(b6, a6), Xor(Pick(b7, a7), 0)))))))) != 0
  {
  }

  lemma OddProductNonZero(a: gf, b: gf)
    requires a & 1 != 0 && b & 1 != 0
    ensures Mul(a, b) != 0
  {
    hide Add, Mul, Double, Half, Pick, Xor;
    OddSumNonZero(a, b);
    MulUnrolls(a, b);
  }

  lemma {:induction false} NoZeroDivisors(a: gf, b: gf)
    ensures Mul(a, b) == 0 <==> a == 0 || b == 0
    decreases b, a
  {
    hide Add, Double, Half, Pick, Unrolled;
    MulOne(a);
    MulOne(b);
    if a != 0 && b != 0 {
      if b & 1 == 0 {
        EvenHalf(b);
        DoubleNonZero(a);
        NoZeroDivisors(Double(a), Half(b));
        AddLaws(Mul(Double(a), Half(b)), 0, 0, 0);
      } else if a & 1 == 0 {
        EvenHalf(a);
        Halve(a);
        AddLaws(Double(Half(a)), 0, 0, 0);
        NoZeroDivisors(Half(a), b);
        MulDoubleLeft(Half(a), b);
        DoubleNonZero(Mul(Half(a), b));
      } else {
        OddProductNonZero(a, b);
      }
    }
  }
}
