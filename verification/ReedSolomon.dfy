/** The Reed-Solomon loops of qr.ts: generator polynomial and long division over GF(2^8). */
module ReedSolomon {
  import opened Gf256
  import opened PowersOfTwo

  /** A list of coefficients; each use says in which order. */
  type Poly = seq<gf>

  function Zeros(n: nat): (z: Poly)
    ensures |z| == n && forall i | 0 <= i < n :: z[i] == 0
  {
    seq(n, i => 0)
  }

  function AddPoly(p: Poly, q: Poly): (r: Poly)
    requires |p| == |q|
    ensures |r| == |p| && forall i | 0 <= i < |p| :: r[i] == Add(p[i], q[i])
  {
    seq(|p|, i requires 0 <= i < |p| => Add(p[i], q[i]))
  }

  function Scale(a: gf, p: Poly): (r: Poly)
    ensures |r| == |p| && forall i | 0 <= i < |p| :: r[i] == Mul(p[i], a)
  {
    seq(|p|, i requires 0 <= i < |p| => Mul(p[i], a))
  }

  // ---------------------------------------------------------------------------
  // The generator, lowest coefficient first
  // ---------------------------------------------------------------------------

  /** `p` times (x + a): shifted up, plus scaled. */
  function TimesLinear(p: Poly, a: gf): (r: Poly)
    ensures |r| == |p| + 1
  {
    AddPoly([0] + p, Scale(a, p) + [0])
  }

  lemma MonicStep(p: Poly, a: gf)
    requires p != [] && p[|p| - 1] == 1
    ensures TimesLinear(p, a)[|p|] == 1
  {
    AddLaws(1, 0, 0, 0);
  }

  /** (x + 1)(x + 2)(x + 4)... with `degree` factors. */
  function Generator(degree: nat): (p: Poly)
    ensures |p| == degree + 1 && p[degree] == 1
  {
    if degree == 0 then [1]
    else
      var p := Generator(degree - 1);
      MonicStep(p, Pow(2, degree - 1));
      TimesLinear(p, Pow(2, degree - 1))
  }

  function Eval(p: Poly, x: gf): gf {
    if p == [] then 0 else Add(p[0], Mul(x, Eval(p[1..], x)))
  }

  lemma {:induction false} EvalAdds(p: Poly, q: Poly, x: gf)
    requires |p| == |q|
    ensures Eval(AddPoly(p, q), x) == Add(Eval(p, x), Eval(q, x))
  {
    hide Add, Mul;
    AddLaws(0, 0, 0, 0);
    if p != [] {
      EvalAdds(p[1..], q[1..], x);
      assert AddPoly(p, q)[1..] == AddPoly(p[1..], q[1..]);
      MulAddsRight(x, Eval(p[1..], x), Eval(q[1..], x));
      AddLaws(p[0], q[0], Mul(x, Eval(p[1..], x)), Mul(x, Eval(q[1..], x)));
    }
  }

  lemma {:induction false} EvalScaled(p: Poly, a: gf, x: gf)
    ensures Eval(Scale(a, p) + [0], x) == Mul(a, Eval(p, x))
  {
    hide Add, Mul;
    var scaled := Scale(a, p) + [0];
    MulOne(a);
    if p == [] {
      assert scaled == [0] && scaled[1..] == [];
      MulOne(x);
      AddLaws(0, 0, 0, 0);
    } else {
      var rest := Eval(p[1..], x);
      EvalScaled(p[1..], a, x);
      assert scaled[1..] == Scale(a, p[1..]) + [0];
      MulAddsRight(a, p[0], Mul(x, rest));
      MulCommutes(a, p[0]);
      MulAssociates(x, a, rest);
      MulAssociates(a, x, rest);
      MulCommutes(a, x);
    }
  }

  /** Multiplying by a linear factor multiplies the values. */
  lemma EvalTimesLinear(p: Poly, a: gf, x: gf)
    ensures Eval(TimesLinear(p, a), x) == Mul(Add(x, a), Eval(p, x))
  {
    hide Add, Mul;
    EvalAdds([0] + p, Scale(a, p) + [0], x);
    EvalScaled(p, a, x);
    assert ([0] + p)[1..] == p;
    AddLaws(Mul(x, Eval(p, x)), 0, 0, 0);
    MulAddsLeft(x, a, Eval(p, x));
  }

  /** The product of (x + 2^i) for i < degree. */
  function Factors(degree: nat, x: gf): gf {
    if degree == 0 then 1 else Mul(Add(x, Pow(2, degree - 1)), Factors(degree - 1, x))
  }

  lemma {:induction false} GeneratorIsProduct(degree: nat, x: gf)
    ensures Eval(Generator(degree), x) == Factors(degree, x)
  {
    hide Add, Mul;
    if degree == 0 {
      var one: Poly := [1];
      assert one[1..] == [];
      MulOne(x);
      AddLaws(1, 0, 0, 0);
    } else {
      GeneratorIsProduct(degree - 1, x);
      EvalTimesLinear(Generator(degree - 1), Pow(2, degree - 1), x);
    }
  }

  lemma {:induction false} FactorVanishes(degree: nat, i: nat)
    requires i < degree
    ensures Factors(degree, Pow(2, i)) == 0
  {
    hide Add, Mul;
    var x := Pow(2, i);
    AddLaws(x, 0, 0, 0);
    MulOne(Factors(degree - 1, x));
    if i < degree - 1 {
      FactorVanishes(degree - 1, i);
      MulOne(Add(x, Pow(2, degree - 1)));
    }
  }

  /** Every 2^i with i < degree is a root of the generator. */
  lemma GeneratorRoots(degree: nat, i: nat)
    requires i < degree
    ensures Eval(Generator(degree), Pow(2, i)) == 0
  {
    GeneratorIsProduct(degree, Pow(2, i));
    FactorVanishes(degree, i);
  }

  lemma TimesLinearAt(p: Poly, a: gf, j: nat)
    requires p != [] && j <= |p|
    ensures TimesLinear(p, a)[j] == if j == 0 then Mul(p[0], a) else Add(p[j - 1], Mul((p + [0])[j], a))
  {
    hide Add, Mul;
    MulOne(a);
    AddLaws(Mul(p[0], a), 0, 0, 0);
  }

  /** The inner loop: from the top down, each entry from itself and the one below. */
  method MultiplyInPlace(list: Poly, i: nat) returns (result: Poly)
    requires |list| >= 2 && list[|list| - 1] == 0
    ensures result == TimesLinear(list[..|list| - 1], Pow(2, i))
  {
    hide Add, Mul, Pow, TimesLinear;
    result := list;
    ghost var p := list[..|list| - 1];
    ghost var next := TimesLinear(p, Pow(2, i));
    assert p + [0] == list;
    var j := |result| - 1;
    while j > 0
      invariant 0 <= j < |result| == |next|
      invariant forall k | 0 <= k <= j :: result[k] == list[k]
      invariant forall k | j < k < |result| :: result[k] == next[k]
      decreases j
    {
      TimesLinearAt(p, Pow(2, i), j);
      var a := GfPow(2, i);
      var product := GfMultiply(result[j], a);
      result := result[j := Add(result[j - 1], product)];
      j := j - 1;
    }
    TimesLinearAt(p, Pow(2, i), 0);
    var a := GfPow(2, i);
    var product := GfMultiply(result[0], a);
    result := result[0 := product];
    assert result == next;
  }

  /** The loop leaves the whole ascending list; then its first entry, the constant term, is sliced off. */
  method ReedSolomonGenerator(degree: nat) returns (sliced: Poly)
    ensures sliced == Generator(degree)[1..]
  {
    hide Pow, TimesLinear;
    var result: Poly := [1];
    for i := 0 to degree
      invariant result == Generator(i)
    {
      assert (result + [0])[..|result|] == result;
      result := MultiplyInPlace(result + [0], i);
    }
    sliced := result[1..];
  }

  // ---------------------------------------------------------------------------
  // Long division, highest coefficient first
  // ---------------------------------------------------------------------------

  /** The factor the shift register takes out for one more data byte. */
  function Factor(register: Poly, byte: gf): gf
    requires register != []
  {
    Add(byte, register[0])
  }

  function Shift(register: Poly, byte: gf, generator: Poly): (r: Poly)
    requires register != [] && |register| == |generator|
    ensures |r| == |generator|
  {
    AddPoly(register[1..] + [0], Scale(Factor(register, byte), generator))
  }

  /** The register after all of the data. */
  function Remainder(data: Poly, generator: Poly): (r: Poly)
    requires generator != []
    ensures |r| == |generator|
  {
    if data == [] then Zeros(|generator|)
    else Shift(Remainder(data[..|data| - 1], generator), data[|data| - 1], generator)
  }

  /** The factors taken out on the way. */
  function Quotient(data: Poly, generator: Poly): (q: Poly)
    requires generator != []
    ensures |q| == |data|
  {
    if data == [] then []
    else
      var front := data[..|data| - 1];
      Quotient(front, generator) + [Factor(Remainder(front, generator), data[|data| - 1])]
  }

  /** The loops of `reedSolomonRemainder`; the generator list is read highest coefficient first. */
  method ReedSolomonRemainder(data: Poly, degree: nat) returns (result: Poly)
    ensures degree > 0 ==> result == Remainder(data, Generator(degree)[1..])
    ensures degree == 0 ==> result == if data == [] then [] else [0]
  {
    hide Add, Mul, Generator;
    var generator := ReedSolomonGenerator(degree);
    result := Zeros(degree);
    for n := 0 to |data|
      invariant degree > 0 ==> result == Remainder(data[..n], generator)
      invariant degree == 0 ==> result == if n == 0 then [] else [0]
    {
      var byte := data[n];
      var first := if result == [] then 0 else result[0];
      ghost var register := result;
      var factor := Add(byte, first);
      result := (if result == [] then [] else result[1..]) + [0];
      ghost var shifted := result;
      for i := 0 to degree
        invariant |result| == |shifted|
        invariant forall k | 0 <= k < i :: result[k] == Add(shifted[k], Mul(generator[k], factor))
        invariant forall k | i <= k < |result| :: result[k] == shifted[k]
      {
        var product := GfMultiply(generator[i], factor);
        result := result[i := Add(result[i], product)];
      }
      assert data[..n + 1][..n] == data[..n];
      if degree > 0 {
        assert result == Shift(register, byte, generator);
      }
    }
    assert data[..|data|] == data;
  }

  /** The product of two polynomials; `g` has at least one coefficient. */
  function PolyMul(q: Poly, g: Poly): (r: Poly)
    requires g != []
    ensures |r| == |q| + |g| - 1
  {
    if q == [] then Zeros(|g| - 1)
    else
      var front := q[..|q| - 1];
      AddPoly(PolyMul(front, g) + [0], Zeros(|front|) + Scale(q[|q| - 1], g))
  }

  /** The monic polynomial whose lower coefficients are the given list. */
  function Monic(generator: Poly): Poly {
    [1] + generator
  }

  /** data(x) * x^degree, written as quotient times generator plus remainder. */
  ghost predicate Divides(data: Poly, generator: Poly, q: Poly, r: Poly) {
    && |q| == |data| && |r| == |generator|
    && AddPoly(PolyMul(q, Monic(generator)), Zeros(|data|) + r) == data + Zeros(|generator|)
  }

  lemma ProductAt(q: Poly, f: gf, g: Poly, k: nat)
    requires g != [] && k < |q| + |g|
    ensures PolyMul(q + [f], g)[k] == Add((PolyMul(q, g) + [0])[k], (Zeros(|q|) + Scale(f, g))[k])
  {
    hide Add, Mul;
    assert (q + [f])[..|q|] == q;
  }

  lemma FoldTop(top: gf, first: gf, byte: gf)
    requires Add(top, first) == 0
    ensures Add(Add(top, Add(byte, first)), 0) == byte
  {
  }

  lemma FoldLow(top: gf, low: gf, c: gf)
    requires Add(top, c) == 0
    ensures Add(Add(top, low), Add(c, low)) == 0
  {
  }

  lemma {:induction false} DivisionAt(data: Poly, generator: Poly, q: Poly, r: Poly, k: nat)
    requires generator != [] && data != [] && Divides(data[..|data| - 1], generator, q, r)
    requires k < |data| + |generator|
    ensures var byte := data[|data| - 1];
            var f := Factor(r, byte);
            Add(PolyMul(q + [f], Monic(generator))[k], (Zeros(|data|) + Shift(r, byte, generator))[k])
              == (data + Zeros(|generator|))[k]
  {
    hide Add, Mul, PolyMul, Zeros, AddPoly, Scale;
    var n, byte := |data| - 1, data[|data| - 1];
    var f := Factor(r, byte);
    var g := Monic(generator);
    var before := PolyMul(q, g);
    if k < n + |generator| {
      assert AddPoly(before, Zeros(n) + r)[k] == (data[..n] + Zeros(|generator|))[k];
    }
    var top := (before + [0])[k];
    var low := (Zeros(n) + Scale(f, g))[k];
    ProductAt(q, f, g, k);
    if k < n {
      AddLaws(top, 0, 0, 0);
    } else if k == n {
      MulOne(f);
      FoldTop(top, r[0], byte);
    } else {
      var i := k - n - 1;
      assert g[i + 1] == generator[i];
      AddLaws(0, 0, 0, 0);
      FoldLow(top, low, (r[1..] + [0])[i]);
    }
  }

  lemma DivisionStep(data: Poly, generator: Poly, q: Poly, r: Poly)
    requires generator != [] && data != [] && Divides(data[..|data| - 1], generator, q, r)
    ensures var byte := data[|data| - 1];
            Divides(data, generator, q + [Factor(r, byte)], Shift(r, byte, generator))
  {
    hide Add, Mul;
    var n, byte := |data| - 1, data[|data| - 1];
    var f := Factor(r, byte);
    var g := Monic(generator);
    var before := PolyMul(q, g);
    var after := PolyMul(q + [f], g);
    assert (q + [f])[..n] == q;
    var shifted := Shift(r, byte, generator);
    var sum := AddPoly(after, Zeros(|data|) + shifted);
    forall k | 0 <= k < |sum| ensures sum[k] == (data + Zeros(|generator|))[k] {
      DivisionAt(data, generator, q, r, k);
    }
  }

  lemma {:induction false} RemainderDivides(data: Poly, generator: Poly)
    requires generator != []
    ensures Divides(data, generator, Quotient(data, generator), Remainder(data, generator))
  {
    hide Add, Mul;
    if data == [] {
      AddLaws(0, 0, 0, 0);
    } else {
      var n := |data| - 1;
      RemainderDivides(data[..n], generator);
      DivisionStep(data, generator, Quotient(data[..n], generator), Remainder(data[..n], generator));
      assert Quotient(data, generator)[..n] == Quotient(data[..n], generator);
    }
  }

  lemma {:induction false} PolyMulAt(q: Poly, g: Poly, k: nat)
    requires q != [] && g != [] && g[0] == 1 && k < |q|
    ensures PolyMul(q, g)[k] == if k < |q| - 1 then PolyMul(q[..|q| - 1], g)[k]
                                else Add((PolyMul(q[..|q| - 1], g) + [0])[k], q[k])
  {
    hide Add, Mul;
    var front := PolyMul(q[..|q| - 1], g) + [0];
    AddLaws(front[k], 0, 0, 0);
    MulOne(q[|q| - 1]);
  }

  lemma {:induction false} LeadingCoefficients(q1: Poly, q2: Poly, g: Poly)
    requires |q1| == |q2| && g != [] && g[0] == 1
    requires forall k | 0 <= k < |q1| :: PolyMul(q1, g)[k] == PolyMul(q2, g)[k]
    ensures q1 == q2
    decreases |q1|
  {
    hide Add, Mul, PolyMul;
    if q1 != [] {
      var n := |q1| - 1;
      forall k | 0 <= k < n ensures PolyMul(q1[..n], g)[k] == PolyMul(q2[..n], g)[k] {
        PolyMulAt(q1, g, k);
        PolyMulAt(q2, g, k);
      }
      LeadingCoefficients(q1[..n], q2[..n], g);
      PolyMulAt(q1, g, n);
      PolyMulAt(q2, g, n);
      AddCancels((PolyMul(q1[..n], g) + [0])[n], q1[n], q2[n]);
      assert q1 == q1[..n] + [q1[n]] && q2 == q2[..n] + [q2[n]];
    }
  }

  lemma DivisionHead(data: Poly, generator: Poly, q: Poly, r: Poly, k: nat)
    requires generator != [] && Divides(data, generator, q, r) && k < |data| + |generator|
    ensures k < |data| ==> PolyMul(q, Monic(generator))[k] == data[k]
    ensures k >= |data| ==> Add(PolyMul(q, Monic(generator))[k], r[k - |data|]) == 0
  {
    hide Add, Mul, PolyMul;
    var product := PolyMul(q, Monic(generator));
    assert AddPoly(product, Zeros(|data|) + r)[k] == (data + Zeros(|generator|))[k];
    AddLaws(product[k], 0, 0, 0);
  }

  /**
   The result is the remainder: quotient and remainder exist, and no other pair of the
   same lengths divides, so the loop computes the only polynomial of degree below that of
   the divisor that is congruent to data(x) * x^degree.
   */
  lemma RemainderIsUnique(data: Poly, generator: Poly, q: Poly, r: Poly)
    requires generator != [] && |q| == |data| && |r| == |generator|
    ensures Divides(data, generator, q, r) <==>
            q == Quotient(data, generator) && r == Remainder(data, generator)
  {
    hide Add, Mul, PolyMul, Quotient, Remainder, Divides;
    RemainderDivides(data, generator);
    if Divides(data, generator, q, r) {
      var q', r' := Quotient(data, generator), Remainder(data, generator);
      forall k | 0 <= k < |data| ensures PolyMul(q, Monic(generator))[k] == PolyMul(q', Monic(generator))[k] {
        DivisionHead(data, generator, q, r, k);
        DivisionHead(data, generator, q', r', k);
      }
      LeadingCoefficients(q, q', Monic(generator));
      forall i | 0 <= i < |r| ensures r[i] == r'[i] {
        DivisionHead(data, generator, q, r, |data| + i);
        DivisionHead(data, generator, q', r', |data| + i);
        AddCancels(PolyMul(q, Monic(generator))[|data| + i], r[i], r'[i]);
      }
    }
  }

  lemma {:induction false} ShiftIsLinear(r: Poly, t: Poly, a: gf, b: gf, generator: Poly)
    requires r != [] && |r| == |t| == |generator|
    ensures Shift(AddPoly(r, t), Add(a, b), generator) == AddPoly(Shift(r, a, generator), Shift(t, b, generator))
  {
    hide Add, Mul;
    var f, h := Factor(r, a), Factor(t, b);
    AddLaws(a, b, r[0], t[0]);
    AddLaws(0, 0, 0, 0);
    forall i | 0 <= i < |r|
      ensures Shift(AddPoly(r, t), Add(a, b), generator)[i]
           == AddPoly(Shift(r, a, generator), Shift(t, b, generator))[i]
    {
      var x, y := (r[1..] + [0])[i], (t[1..] + [0])[i];
      assert (AddPoly(r, t)[1..] + [0])[i] == Add(x, y);
      MulAddsRight(generator[i], f, h);
      AddLaws(x, y, Mul(generator[i], f), Mul(generator[i], h));
    }
  }

  /** The check symbols of a sum are the sum of the check symbols. */
  lemma {:induction false} RemainderIsLinear(a: Poly, b: Poly, generator: Poly)
    requires generator != [] && |a| == |b|
    ensures Remainder(AddPoly(a, b), generator) == AddPoly(Remainder(a, generator), Remainder(b, generator))
    decreases |a|
  {
    hide Add, Mul;
    if a == [] {
      AddLaws(0, 0, 0, 0);
    } else {
      var n := |a| - 1;
      RemainderIsLinear(a[..n], b[..n], generator);
      assert AddPoly(a, b)[..n] == AddPoly(a[..n], b[..n]);
      ShiftIsLinear(Remainder(a[..n], generator), Remainder(b[..n], generator), a[n], b[n], generator);
    }
  }

  // ---------------------------------------------------------------------------
  // The two lists do not fit together
  // ---------------------------------------------------------------------------

  function Reverse(p: Poly): (r: Poly)
    ensures |r| == |p| && forall i | 0 <= i < |p| :: r[i] == p[|p| - 1 - i]
  {
    seq(|p|, i requires 0 <= i < |p| => p[|p| - 1 - i])
  }

  /** What long division by the generator needs: its lower coefficients, highest first. */
  function StandardDivider(degree: nat): Poly {
    Reverse(Generator(degree)[..degree])
  }

  /**
   `reedSolomonGenerator` slices off the constant term of a list that ascends, and the
   division reads what is left as descending. The two agree exactly when the generator is
   a palindrome, which its constant term has to be 1 for.
   */
  lemma DividerIsStandardIff(degree: nat)
    ensures Generator(degree)[1..] == StandardDivider(degree) <==>
            forall i | 0 <= i <= degree :: Generator(degree)[i] == Generator(degree)[degree - i]
    ensures degree > 0 && Generator(degree)[1..] == StandardDivider(degree) ==> Generator(degree)[0] == 1
  {
    hide Generator;
    var p := Generator(degree);
    var front := p[..degree];
    if p[1..] == Reverse(front) {
      forall i | 0 <= i <= degree ensures p[i] == p[degree - i] {
        if i > 0 {
          assert p[1..][i - 1] == Reverse(front)[i - 1];
        } else if degree > 0 {
          assert p[1..][degree - 1] == Reverse(front)[degree - 1];
        }
      }
    }
    if forall i | 0 <= i <= degree :: p[i] == p[degree - i] {
      forall i | 0 <= i < degree ensures p[1..][i] == Reverse(front)[i] {
        assert p[i + 1] == p[degree - (i + 1)];
      }
    }
  }

  lemma {:induction false} EvalAppend(p: Poly, c: gf, x: gf)
    ensures Eval(p + [c], x) == Add(Eval(p, x), Mul(Pow(x, |p|), c))
  {
    hide Add, Mul;
    MulOne(c);
    AddLaws(Mul(Pow(x, |p|), c), 0, 0, 0);
    if p == [] {
      assert ([] + [c])[1..] == [];
      MulOne(x);
      AddLaws(c, 0, 0, 0);
    } else {
      var rest := Eval(p[1..], x);
      EvalAppend(p[1..], c, x);
      assert (p + [c])[1..] == p[1..] + [c];
      MulAddsRight(x, rest, Mul(Pow(x, |p| - 1), c));
      MulAssociates(x, Pow(x, |p| - 1), c);
      MulCommutes(x, Pow(x, |p| - 1));
      AddLaws(p[0], Mul(x, rest), Mul(Pow(x, |p|), c), 0);
    }
  }

  lemma {:induction false} PowInverse(x: gf, y: gf, n: nat)
    requires Mul(x, y) == 1
    ensures Mul(Pow(x, n), Pow(y, n)) == 1
  {
    hide Add, Mul;
    MulOne(1);
    if n > 0 {
      var a, b := Pow(x, n - 1), Pow(y, n - 1);
      PowInverse(x, y, n - 1);
      MulOne(b);
      MulAssociates(a, x, Mul(b, y));
      MulCommutes(b, y);
      MulAssociates(x, y, b);
    }
  }

  /** Reading the coefficients backwards evaluates at the inverse point. */
  lemma {:induction false} EvalReversed(p: Poly, x: gf, y: gf)
    requires p != [] && Mul(x, y) == 1
    ensures Mul(Pow(x, |p| - 1), Eval(Reverse(p), y)) == Eval(p, x)
  {
    hide Add, Mul;
    var n := |p| - 1;
    var tail := Reverse(p[1..]);
    assert Reverse(p) == tail + [p[0]];
    EvalAppend(tail, p[0], y);
    PowInverse(x, y, n);
    MulAddsRight(Pow(x, n), Eval(tail, y), Mul(Pow(y, n), p[0]));
    MulAssociates(Pow(x, n), Pow(y, n), p[0]);
    MulOne(p[0]);
    if n == 0 {
      assert tail == [] && p[1..] == [];
      MulOne(x);
      MulOne(1);
      AddLaws(p[0], 0, 0, 0);
    } else {
      EvalReversed(p[1..], x, y);
      MulCommutes(Pow(x, n - 1), x);
      MulAssociates(x, Pow(x, n - 1), Eval(tail, y));
      AddLaws(p[0], Mul(x, Eval(p[1..], x)), 0, 0);
    }
  }

  lemma InverseOfTwo()
    ensures Mul(2, 142) == 1 && Mul(142, 2) == 1
  {
    hide Mul;
    MulCommutes(142, 2);
    TimesTwo(142);
  }

  lemma SumVanishes(a: gf, b: gf)
    ensures Add(a, b) == 0 <==> a == b
  {
  }

  lemma PowersBelow(degree: nat, x: gf)
    requires degree > 0
    ensures (exists i :: 0 <= i < degree && x == Pow(2, i)) <==>
            x == Pow(2, degree - 1) || exists i :: 0 <= i < degree - 1 && x == Pow(2, i)
  {
    hide Pow;
    if i :| 0 <= i < degree && x == Pow(2, i) {
      if i < degree - 1 { assert 0 <= i < degree - 1 && x == Pow(2, i); }
    }
  }

  lemma {:induction false} FactorsVanishExactly(degree: nat, x: gf)
    ensures Factors(degree, x) == 0 <==> exists i :: 0 <= i < degree && x == Pow(2, i)
  {
    hide Mul, Pow;
    if degree > 0 {
      var last := Pow(2, degree - 1);
      FactorsVanishExactly(degree - 1, x);
      NoZeroDivisors(Add(x, last), Factors(degree - 1, x));
      SumVanishes(x, last);
      PowersBelow(degree, x);
    }
  }

  /** The roots of the generator are exactly the powers it was built from. */
  lemma {:induction false} GeneratorRootsExactly(degree: nat, x: gf)
    ensures Eval(Generator(degree), x) == 0 <==> exists i :: 0 <= i < degree && x == Pow(2, i)
  {
    GeneratorIsProduct(degree, x);
    FactorsVanishExactly(degree, x);
  }

  lemma SmallGenerators()
    ensures Generator(0) == [1] && Generator(1) == [1, 1]
  {
    hide Mul;
    MulOne(1);
    AddLaws(1, 0, 0, 0);
    assert Generator(0) == [1];
    TimesLinearAt([1], 1, 0);
    TimesLinearAt([1], 1, 1);
  }

  /** 142 is the inverse of 2, and none of the powers of 2 below 2^254. */
  lemma NoRootAt142(degree: nat)
    requires degree <= 254
    ensures Eval(Generator(degree), 142) != 0
  {
    hide Add, Mul, Generator, Eval, Pow;
    GeneratorRootsExactly(degree, 142);
    InverseOfTwo();
    FirstPower();
    forall i | 0 <= i < degree ensures Pow(2, i) != 142 {
      NoShortCycle(i + 1);
      PowAdds(2, i, 1);
    }
  }

  lemma NotPalindrome(degree: nat)
    requires 2 <= degree <= 254
    ensures Reverse(Generator(degree)) != Generator(degree)
  {
    hide Add, Mul, Generator;
    var p := Generator(degree);
    InverseOfTwo();
    MulOne(2);
    assert Pow(2, 1) == 2 by { assert Pow(2, 0) == 1; }
    GeneratorRoots(degree, 1);
    EvalReversed(p, 2, 142);
    PowInverse(2, 142, degree);
    MulOne(Pow(142, degree));
    NoZeroDivisors(Pow(2, degree), Eval(Reverse(p), 142));
    assert Eval(Reverse(p), 142) == 0;
    NoRootAt142(degree);
  }

  lemma MirrorIsReverse(p: Poly)
    ensures (forall i | 0 <= i < |p| :: p[i] == p[|p| - 1 - i]) ==> Reverse(p) == p
  {
  }

  /**
   For every degree a block over GF(2^8) can have, which is at most 254, the list
   `reedSolomonRemainder` divides by is the standard divider exactly when the degree is at
   most 1: from degree 2 on, a palindromic generator would have the inverse of its root 2
   among its roots.
   */
  lemma {:induction false} DividerIsStandardOnlyBelowTwo(degree: nat)
    requires degree <= 254
    ensures Generator(degree)[1..] == StandardDivider(degree) <==> degree <= 1
  {
    DividerIsStandardIff(degree);
    if degree <= 1 {
      SmallGenerators();
    } else {
      NotPalindrome(degree);
      MirrorIsReverse(Generator(degree));
    }
  }

  /** The check symbols of the single codeword 1 are the divider itself. */
  lemma RemainderOfOne(generator: Poly)
    requires generator != []
    ensures Remainder([1], generator) == generator
  {
    hide Mul, Add;
    assert [1][..0] == [];
    forall i | 0 <= i < |generator| ensures Remainder([1], generator)[i] == generator[i] {
      MulOne(generator[i]);
      AddLaws(generator[i], 0, 0, 0);
      AddLaws(1, 0, 0, 0);
    }
  }

  /** Only of degree 1 do all data get the check symbols of the standard; 1 is data that tells the others apart. */
  lemma CheckSymbolsAreStandardIff(degree: nat)
    requires 0 < degree <= 254
    ensures |Generator(degree)[1..]| == |StandardDivider(degree)| == degree
    ensures (forall data :: Remainder(data, Generator(degree)[1..]) == Remainder(data, StandardDivider(degree))) <==>
            degree == 1
    ensures degree > 1 ==> Remainder([1], Generator(degree)[1..]) != Remainder([1], StandardDivider(degree))
  {
    hide Generator, Remainder;
    DividerIsStandardOnlyBelowTwo(degree);
    RemainderOfOne(Generator(degree)[1..]);
    RemainderOfOne(StandardDivider(degree));
  }

  // ---------------------------------------------------------------------------
  // What the division means at a point
  // ---------------------------------------------------------------------------

  /** The value of a polynomial written highest coefficient first. */
  function Down(p: Poly, x: gf): gf {
    if p == [] then 0 else Add(Mul(x, Down(p[..|p| - 1], x)), p[|p| - 1])
  }

  /** It is the value of the same polynomial written the other way round. */
  lemma {:induction false} DownIsEval(p: Poly, x: gf)
    ensures Down(p, x) == Eval(Reverse(p), x)
  {
    hide Add, Mul;
    if p != [] {
      var n := |p| - 1;
      DownIsEval(p[..n], x);
      assert Reverse(p)[1..] == Reverse(p[..n]);
      AddLaws(p[n], Mul(x, Down(p[..n], x)), 0, 0);
    }
  }

  lemma DownAppend(p: Poly, c: gf, x: gf)
    ensures Down(p + [c], x) == Add(Mul(x, Down(p, x)), c)
  {
    assert (p + [c])[..|p|] == p;
  }

  lemma {:induction false} DownAdds(p: Poly, q: Poly, x: gf)
    requires |p| == |q|
    ensures Down(AddPoly(p, q), x) == Add(Down(p, x), Down(q, x))
  {
    hide Add, Mul;
    AddLaws(0, 0, 0, 0);
    if p != [] {
      var n := |p| - 1;
      DownAdds(p[..n], q[..n], x);
      assert AddPoly(p, q)[..n] == AddPoly(p[..n], q[..n]);
      MulAddsRight(x, Down(p[..n], x), Down(q[..n], x));
      AddLaws(Mul(x, Down(p[..n], x)), Mul(x, Down(q[..n], x)), p[n], q[n]);
    }
  }

  lemma {:induction false} DownScaled(a: gf, p: Poly, x: gf)
    ensures Down(Scale(a, p), x) == Mul(a, Down(p, x))
  {
    hide Add, Mul;
    MulOne(a);
    if p != [] {
      var n := |p| - 1;
      var rest := Down(p[..n], x);
      DownScaled(a, p[..n], x);
      assert Scale(a, p)[..n] == Scale(a, p[..n]);
      MulAddsRight(a, Mul(x, rest), p[n]);
      MulAssociates(a, x, rest);
      MulAssociates(x, a, rest);
      MulCommutes(a, x);
      MulCommutes(a, p[n]);
    }
  }

  lemma {:induction false} DownZeros(n: nat, p: Poly, x: gf)
    ensures Down(Zeros(n) + p, x) == Down(p, x)
    ensures Down(Zeros(n), x) == 0
    decreases n + |p|
  {
    hide Add, Mul;
    MulOne(x);
    AddLaws(0, 0, 0, 0);
    if n > 0 {
      assert Zeros(n)[..n - 1] == Zeros(n - 1);
      DownZeros(n - 1, [], x);
    }
    if p == [] {
      assert Zeros(n) + p == Zeros(n);
    } else {
      var front := p[..|p| - 1];
      assert (Zeros(n) + p)[..n + |p| - 1] == Zeros(n) + front;
      DownZeros(n, front, x);
    }
  }

  lemma DownNothing(x: gf)
    ensures Down([], x) == 0
  {
  }

  /** The values of a product are the products of the values. */
  lemma {:induction false} PolyMulIsProduct(q: Poly, g: Poly, x: gf)
    requires g != []
    ensures Down(PolyMul(q, g), x) == Mul(Down(q, x), Down(g, x))
  {
    hide Add, Mul, Down;
    if q == [] {
      DownZeros(|g| - 1, [], x);
      MulOne(Down(g, x));
      DownNothing(x);
    } else {
      var front, last := q[..|q| - 1], q[|q| - 1];
      var f, v := Down(front, x), Down(g, x);
      PolyMulIsProduct(front, g, x);
      DownAdds(PolyMul(front, g) + [0], Zeros(|front|) + Scale(last, g), x);
      DownAppend(PolyMul(front, g), 0, x);
      DownZeros(|front|, Scale(last, g), x);
      DownScaled(last, g, x);
      DownAppend(front, last, x);
      assert q == front + [last];
      AddLaws(Mul(x, Mul(f, v)), 0, 0, 0);
      MulAssociates(x, f, v);
      MulAddsLeft(Mul(x, f), last, v);
    }
  }

  lemma {:induction false} DownShifted(p: Poly, r: Poly, x: gf)
    ensures Down(p + r, x) == Down(AddPoly(p + Zeros(|r|), Zeros(|p|) + r), x)
  {
    hide Add, Mul;
    forall k | 0 <= k < |p| + |r|
      ensures AddPoly(p + Zeros(|r|), Zeros(|p|) + r)[k] == (p + r)[k]
    {
      AddLaws((p + r)[k], 0, 0, 0);
    }
    assert AddPoly(p + Zeros(|r|), Zeros(|p|) + r) == p + r;
  }

  /** Data and check symbols together vanish wherever the polynomial divided by does. */
  lemma CodewordVanishes(data: Poly, generator: Poly, x: gf)
    requires generator != [] && Down([1] + generator, x) == 0
    ensures Down(data + Remainder(data, generator), x) == 0
  {
    hide Add, Mul, Down, Remainder;
    var q, r := Quotient(data, generator), Remainder(data, generator);
    RemainderDivides(data, generator);
    DownShifted(data, r, x);
    DownAdds(data + Zeros(|r|), Zeros(|data|) + r, x);
    DownAdds(PolyMul(q, Monic(generator)), Zeros(|data|) + r, x);
    PolyMulIsProduct(q, Monic(generator), x);
    MulOne(Down(q, x));
    DownZeros(|data|, r, x);
    AddLaws(Down(r, x), 0, 0, 0);
  }
}
