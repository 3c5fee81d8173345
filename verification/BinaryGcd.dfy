/** The binary greatest common divisor and inverse over the integers: one step of
    mbedtls_mpi_core_gcd_modinv_odd, what it keeps, and how often it can happen. */
module BinaryGcd {
  import opened Arith
  import opened BitLength

  // ----- one step

  /** The operand kept whole: u when both are odd, v - u otherwise. */
  function Whole(u: nat, v: nat): nat
    requires u <= v
  {
    if u % 2 == 1 && v % 2 == 1 then u else v - u
  }

  /** The even operand, halved. */
  function Halved(u: nat, v: nat): nat
    requires u <= v
  {
    (if u % 2 == 1 && v % 2 == 1 then v - u else if u % 2 == 1 then v else u) / 2
  }

  function StepU(u: nat, v: nat): nat
    requires u <= v
  {
    if Halved(u, v) < Whole(u, v) then Halved(u, v) else Whole(u, v)
  }

  function StepV(u: nat, v: nat): nat
    requires u <= v
  {
    if Halved(u, v) < Whole(u, v) then Whole(u, v) else Halved(u, v)
  }

  /** u and v are ordered, one of them is odd, and they share exactly the divisors that A and N share. */
  ghost predicate GcdState(u: nat, v: nat, A: nat, N: nat) {
    && u <= v && (u % 2 == 1 || v % 2 == 1)
    && forall d: nat | d > 0 :: (Divides(d, u) && Divides(d, v)) <==> (Divides(d, A) && Divides(d, N))
  }

  /** Divisors common to the operands are common to the step's results, and conversely. */
  lemma {:induction false} StepDivisors(d: nat, u: nat, v: nat)
    requires d > 0 && u <= v && (u % 2 == 1 || v % 2 == 1)
    ensures Divides(d, u) && Divides(d, v) <==> Divides(d, Whole(u, v)) && Divides(d, Halved(u, v))
  {
    hide Divides;
    var w, h := Whole(u, v), Halved(u, v);
    assert w % 2 == 1;
    if Divides(d, w) { OddDivisor(d, w, h); }
    if Divides(d, u) {
      DividesAddSub(d, u, v);
      DividesAddSub(d, u, v - u);
      if u % 2 == 1 { OddDivisor(d, u, h); }
    }
    if Divides(d, v) {
      if v % 2 == 1 { OddDivisor(d, v, h); }
    }
    if Divides(d, v - u) {
      DividesAddSub(d, v - u, u);
      if (v - u) % 2 == 1 { OddDivisor(d, v - u, h); }
    }
  }

  /** A step keeps the order, an odd operand, and the greatest common divisor. */
  lemma {:induction false} StepKeepsGcd(u: nat, v: nat, A: nat, N: nat)
    requires GcdState(u, v, A, N)
    ensures GcdState(StepU(u, v), StepV(u, v), A, N)
  {
    var u', v' := StepU(u, v), StepV(u, v);
    assert Whole(u, v) % 2 == 1;
    forall d: nat | d > 0
      ensures (Divides(d, u') && Divides(d, v')) <==> (Divides(d, A) && Divides(d, N))
    {
      StepDivisors(d, u, v);
    }
  }

  /** At u = 0 the other operand is the greatest common divisor. */
  lemma {:induction false} GcdAtZero(v: nat, A: nat, N: nat)
    requires GcdState(0, v, A, N)
    ensures IsGcd(v, A, N)
  {
    forall d: nat | d > 0 ensures Divides(d, v) <==> Divides(d, A) && Divides(d, N) {
      DividesZero(d);
    }
  }

  // ----- how many steps

  function Min(x: nat, y: nat): nat { if x < y then x else y }

  function Gap(x: nat, y: nat): nat { if x < y then y - x else x - y }

  /** Bits of the smaller of u and v - u, plus the bits of their gap when v is odd or of the
      larger one when v is even. */
  function Measure(u: nat, v: nat): nat
    requires u <= v
  {
    if u == 0 then 0
    else Bits(Min(u, v - u)) + Bits(if v % 2 == 1 then Gap(u, v - u) else u + (v - u) - Min(u, v - u))
  }

  lemma {:induction false} HalfBits(x: nat, n: nat)
    requires n > 0 && 2 * x <= n
    ensures Bits(x) < Bits(n)
  {
    BitsMonotone(x, n / 2);
  }

  /** The pair s, s + x costs less than s together with s + 2x. */
  lemma {:induction false} SpreadPair(s: nat, x: nat)
    requires s > 0
    ensures Measure(s, s + x) < Bits(s) + Bits(s + 2 * x)
  {
    HalfBits(x, s + 2 * x);
    BitsMonotone(s, s + 2 * x);
    BitsMonotone(Gap(s, x), if s < x then x else s);
    assert Bits(0) == 0;
  }

  lemma {:induction false} StepShrinksEven(u: nat, v: nat)
    requires 0 < u <= v && v % 2 == 0 && u % 2 == 1
    ensures Measure(StepU(u, v), StepV(u, v)) < Measure(u, v)
  {
    var w := v - u;
    if u <= w {
      var x := (w - u) / 2;
      assert StepU(u, v) == u + x && StepV(u, v) == u + 2 * x;
      HalfBits(x, w);
      assert Bits(0) == 0;
    } else {
      var x := (u - w) / 2;
      assert w > 0 && StepU(u, v) == w && StepV(u, v) == w + x;
      SpreadPair(w, x);
    }
  }

  /** An odd v is the sum of a smaller part s and a larger part s + g, of unlike parity; the
      step keeps the odd part and halves the even one. */
  lemma {:induction false} OddSplit(u: nat, v: nat) returns (s: nat, g: nat)
    requires 0 < u <= v && v % 2 == 1
    ensures v == s + s + g && g % 2 == 1 && Measure(u, v) == Bits(s) + Bits(g)
    ensures s % 2 == 0 ==> StepU(u, v) == s / 2 && StepV(u, v) == s + g
    ensures s % 2 == 1 && g < s ==> StepU(u, v) == (s + g) / 2 && StepV(u, v) == s
    ensures s % 2 == 1 && g >= s ==> StepU(u, v) == s && StepV(u, v) == s + (g - s) / 2
  {
    hide Bits;
    s := Min(u, v - u);
    g := v - s - s;
    assert Gap(u, v - u) == g;
  }

  lemma {:induction false} StepShrinksOdd(u: nat, v: nat)
    requires 0 < u <= v && v % 2 == 1
    ensures Measure(StepU(u, v), StepV(u, v)) < Measure(u, v)
  {
    hide StepU;
    var s, g := OddSplit(u, v);
    if s % 2 == 0 {
      if s > 0 { HalveSmaller(s, g); }
    } else if g < s {
      HalveLarger(s, g);
    } else {
      SpreadPair(s, (g - s) / 2);
    }
  }

  lemma {:induction false} HalveSmaller(s: nat, g: nat)
    requires s > 0 && s % 2 == 0 && g % 2 == 1
    ensures Measure(s / 2, s + g) < Bits(s) + Bits(g)
  {
    hide Bits;
    HalfBits(s / 2, s);
  }

  lemma {:induction false} HalveLarger(s: nat, g: nat)
    requires s % 2 == 1 && g % 2 == 1 && g < s
    ensures Measure((s + g) / 2, s) < Bits(s) + Bits(g)
  {
    HalfBits((s - g) / 2, s);
  }

  /** Until u is zero every step makes the measure smaller. */
  lemma {:induction false} StepShrinks(u: nat, v: nat)
    requires 0 < u <= v && (u % 2 == 1 || v % 2 == 1)
    ensures Measure(StepU(u, v), StepV(u, v)) < Measure(u, v)
  {
    if v % 2 == 1 { StepShrinksOdd(u, v); } else { StepShrinksEven(u, v); }
  }

  /** Zero is a fixed point. */
  lemma {:induction false} StepAtZero(v: nat)
    requires v % 2 == 1
    ensures StepU(0, v) == 0 && StepV(0, v) == v
  {
  }

  /** The loop's fixed count covers the measure it starts from. */
  lemma {:induction false} MeasureBound(A: nat, N: nat)
    requires A <= N && N % 2 == 1
    ensures Measure(A, N) <= Bits(A) + Bits(N)
  {
    BitsMonotone(Min(A, N - A), A);
    BitsMonotone(Gap(A, N - A), N);
  }

  // ----- the inverse

  function SubMod(x: nat, y: nat, n: nat): nat
    requires x < n && y < n
  {
    if x < y then x + n - y else x - y
  }

  /** Half of x modulo the odd n. */
  function HalfMod(x: nat, n: nat): nat {
    (if x % 2 == 1 then x + n else x) / 2
  }

  /** The coefficient that goes with Whole. */
  function WholeCoef(u: nat, v: nat, r: nat, q: nat, n: nat): nat
    requires r < n && q < n
  {
    if u % 2 == 1 && v % 2 == 1 then r else SubMod(q, r, n)
  }

  /** The coefficient that goes with Halved. */
  function HalvedCoef(u: nat, v: nat, r: nat, q: nat, n: nat): nat
    requires r < n && q < n
  {
    HalfMod(if u % 2 == 1 && v % 2 == 1 then SubMod(q, r, n) else if u % 2 == 1 then q else r, n)
  }

  /** r and q are the coefficients of A in u and v modulo n. */
  ghost predicate Coefficients(u: nat, v: nat, r: nat, q: nat, A: nat, n: nat) {
    r < n && q < n && Cong(Mul(r, A), u, n) && Cong(Mul(q, A), v, n)
  }

  lemma {:induction false} SubModCong(q: nat, r: nat, A: nat, u: nat, v: nat, n: nat)
    requires u <= v && Coefficients(u, v, r, q, A, n)
    ensures SubMod(q, r, n) < n && Cong(Mul(SubMod(q, r, n), A), v - u, n)
  {
    hide Mul;
    var x := SubMod(q, r, n);
    var k: int := if q < r then A else 0;
    CongAdd(Mul(q, A), v, Mul(r, A), u, n);
    assert Mul(x, A) == Mul(q, A) - Mul(r, A) + k * n by {
      MulIs(q, A); MulIs(r, A); MulIs(x, A);
      MulDistrib(A, q, r);
      if q < r { MulDistrib(A, q - r, n); }
    }
    CongIntro(Mul(x, A), Mul(q, A) - Mul(r, A), n, k);
    CongTrans(Mul(x, A), Mul(q, A) - Mul(r, A), v - u, n);
  }

  lemma {:induction false} HalfModCong(x: nat, A: nat, y: nat, n: nat)
    requires n % 2 == 1 && x < n && y % 2 == 0 && Cong(Mul(x, A), y, n)
    ensures HalfMod(x, n) < n && Cong(Mul(HalfMod(x, n), A), y / 2, n)
  {
    hide Cong, Mul;
    var h := HalfMod(x, n);
    var t := if x % 2 == 1 then 1 else 0;
    assert 2 * h == x + t * n;
    assert 2 * Mul(h, A) == Mul(x, A) + (t * A) * n by {
      MulIs(h, A); MulIs(x, A);
      assert 2 * (h * A) == (2 * h) * A by { MulAssoc(2, h, A); }
      MulDistrib(A, x, t * n);
      assert A * (t * n) == (t * A) * n;
    }
    CongIntro(2 * Mul(h, A), Mul(x, A), n, t * A);
    CongTrans(2 * Mul(h, A), Mul(x, A), 2 * (y / 2), n);
    CongHalve(Mul(h, A), y / 2, n);
  }

  /** The coefficients follow the operands through a step. */
  lemma {:induction false} StepKeepsCoefficients(u: nat, v: nat, r: nat, q: nat, A: nat, n: nat)
    requires u <= v && (u % 2 == 1 || v % 2 == 1) && n % 2 == 1 && Coefficients(u, v, r, q, A, n)
    ensures WholeCoef(u, v, r, q, n) < n && Cong(Mul(WholeCoef(u, v, r, q, n), A), Whole(u, v), n)
    ensures HalvedCoef(u, v, r, q, n) < n && Cong(Mul(HalvedCoef(u, v, r, q, n), A), Halved(u, v), n)
  {
    hide Cong;
    SubModCong(q, r, A, u, v, n);
    if u % 2 == 1 && v % 2 == 1 {
      HalfModCong(SubMod(q, r, n), A, v - u, n);
    } else if u % 2 == 1 {
      HalfModCong(q, A, v, n);
    } else {
      HalfModCong(r, A, u, n);
    }
  }
}
