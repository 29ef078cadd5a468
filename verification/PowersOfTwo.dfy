/** The order of 2 in GF(2^8): its first 255 powers differ, so no polynomial of QR codes repeats a root. */
module PowersOfTwo {
  import opened Gf256

  lemma {:induction false} PowAdds(x: gf, m: nat, n: nat)
    ensures Pow(x, m + n) == Mul(Pow(x, m), Pow(x, n))
    decreases n
  {
    hide Mul;
    MulOne(Pow(x, m));
    if n > 0 {
      PowAdds(x, m, n - 1);
      MulAssociates(Pow(x, m), Pow(x, n - 1), x);
    }
  }

  lemma {:induction false} PowCycles(k: nat, q: nat, kq: nat, r: nat)
    requires Pow(2, k) == 1 && kq == k * q
    ensures Pow(2, kq + r) == Pow(2, r)
    decreases q
  {
    hide Mul, Pow;
    if q > 0 {
      assert k * q == k * (q - 1) + k;
      assert k * (q - 1) >= 0;
      PowCycles(k, q - 1, kq - k, r);
      PowAdds(2, k, kq - k + r);
      MulOne(Pow(2, r));
    }
  }

  /** Powers that come out as 1 may be taken away from an exponent. */
  lemma PowMod(n: nat, k: nat)
    requires k > 0 && Pow(2, k) == 1
    ensures Pow(2, n % k) == Pow(2, n)
  {
    hide Pow;
    var q, r := n / k, n % k;
    assert n == k * q + r && r <= n;
    PowCycles(k, q, n - r, r);
  }

  lemma TimesTwo(a: gf)
    ensures Mul(a, 2) == Double(a)
  {
    hide Add, Mul;
    MulOne(a);
    assert Double(1) == 2;
    MulDoubleRight(a, 1);
  }

  /** The field: sums are bitwise, and 2 stands for x, with x^8 = x^4 + x^3 + x^2 + 1. */
  lemma FieldIs(a: gf, b: gf)
    ensures Add(a, b) == a ^ b
    ensures Mul(a, 2) == if a < 0x80 then a << 1 else (a << 1) ^ 0x11D
  {
    hide Mul;
    TimesTwo(a);
    assert (a << 1) & 0x100 != 0 <==> a >= 0x80;
  }

  lemma Times(m: nat, n: nat, x: gf, y: gf)
    requires Pow(2, m) == x && Pow(2, n) == y
    ensures Pow(2, m + n) == Unrolled(x, y)
  {
    PowAdds(2, m, n);
    MulUnrolls(x, y);
  }

  lemma FirstPower()
    ensures Pow(2, 1) == 2
  {
    assert Pow(2, 0) == 1;
    TimesTwo(1);
    MulOne(2);
  }

  /** The powers that decide the order. */
  lemma KeyPowers()
    ensures Pow(2, 15) != 1 && Pow(2, 51) != 1 && Pow(2, 85) != 1 && Pow(2, 255) == 1
  {
    hide Mul, Pow;
    FirstPower();
    Times(1, 1, 2, 2);
    Times(2, 2, 4, 4);
    Times(4, 4, 16, 16);
    Times(8, 4, 29, 16);
    Times(12, 2, 205, 4);
    Times(14, 1, 19, 2);
    Times(8, 8, 29, 29);
    Times(16, 1, 76, 2);
    Times(17, 17, 152, 152);
    Times(34, 17, 78, 152);
    Times(51, 34, 10, 78);
    Times(85, 85, 214, 214);
    Times(170, 85, 215, 214);
  }

  lemma OneIsSmall(k: nat, q: nat)
    requires k * q < 16 * 16
    ensures k <= 15 || q <= 15
  {
  }

  lemma SmallFactor(k: nat, q: nat)
    requires k * q == 255 && k <= 15
    ensures (k == 1 && q == 255) || (k == 3 && q == 85) || (k == 5 && q == 51) || (k == 15 && q == 17)
  {
    match k
    case 0 =>
    case 1 => case 2 => case 3 => case 4 => case 5 => case 6 => case 7 => case 8 => case 9 => case 10 =>
    case 11 => case 12 => case 13 => case 14 => case 15 =>
  }

  /** Of two factors of 255, one is at most 15. */
  lemma Divisors(k: nat, q: nat)
    requires k * q == 255 && k < 255
    ensures 15 % k == 0 || 51 % k == 0 || 85 % k == 0
  {
    OneIsSmall(k, q);
    if k <= 15 {
      SmallFactor(k, q);
    } else {
      SmallFactor(q, k);
    }
  }

  lemma ZerothPower()
    ensures Pow(2, 0) == 1
  {
  }

  /** 2 has order 255. */
  lemma {:induction false} NoShortCycle(k: nat)
    requires 0 < k < 255
    ensures Pow(2, k) != 1
  {
    hide Mul, Pow;
    if Pow(2, k) == 1 {
      KeyPowers();
      PowMod(255, k);
      if 255 % k != 0 {
        NoShortCycle(255 % k);
      } else {
        assert k * (255 / k) == 255;
        Divisors(k, 255 / k);
        PowMod(15, k);
        PowMod(51, k);
        PowMod(85, k);
        ZerothPower();
      }
    }
  }

}
