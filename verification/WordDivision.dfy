/** Dividing a two-limb number by one limb using only limb arithmetic (bignum.c, the portable
    branch of int_div_int): normalize, then two quotient digits of half a limb each. */
module WordDivision {
  import opened Arith
  import opened LimbVectors
  import opened BignumCore
  import opened BitLength

  lemma {:induction false} QuotientBelow(h: nat, dd: nat, u: nat, w: nat)
    requires u < dd && w < h
    ensures (u * h + w) / dd < h
  {
    MulMonotone(h, u + 1, dd);
    MulDistrib(h, u, 1);
    MulMonotone(h, 0, u);
    DivLess(u * h + w, dd, h);
  }

  /** (d1 h + d0) q, spread out. */
  lemma {:induction false} Spread(h: nat, d1: nat, d0: nat, q: nat)
    ensures (d1 * h + d0) * q == d1 * q * h + q * d0
  {
    MulDistrib(q, d1 * h, d0);
    MulAssoc(q, d1, h);
  }

  lemma {:induction false} EstimateCap(h: nat, d1: nat, d0: nat, u: nat)
    requires h > 1 && 0 < d1 && h <= 2 * d1 && d0 < h && u < d1 * h + d0
    ensures u / d1 <= h + 1
  {
    MulDistrib(d1, h, 2);
    DivLess(u, d1, h + 2);
  }

  lemma {:induction false} EstimateAbove(h: nat, d1: nat, d0: nat, u: nat, w: nat)
    requires h > 1 && 0 < d1 && w < h
    ensures d1 * h + d0 > 0 && (u * h + w) / (d1 * h + d0) <= u / d1
  {
    MulStrict(d1, 0, h);
    MulMonotone(h, 0, u);
    var dd: nat, x: nat := d1 * h + d0, u * h + w;
    DivBounds(x, dd);
    var p := x / dd;
    Spread(h, d1, d0, p);
    MulMonotone(p, 0, d0);
    MulDistrib(h, u, 1);
    Below(h, d1 * p, u, x);
    DivLess(u, d1, p);
  }

  lemma {:induction false} Below(h: nat, y: nat, u: nat, x: nat)
    requires y * h <= x < u * h + h
    ensures y <= u
  {
    if y > u { MulMonotone(h, u + 1, y); MulDistrib(h, u, 1); }
  }

  lemma {:induction false} TooLarge(h: nat, d1: nat, d0: nat, u: nat, w: nat, q: nat, r: nat)
    requires d1 > 0 && h > 1 && u < d1 * h + d0 && w < h && u == d1 * q + r && (q >= h || q * d0 > h * r + w)
    ensures d1 * h + d0 > 0 && (u * h + w) / (d1 * h + d0) < q
  {
    var dd, x := d1 * h + d0, u * h + w;
    MulStrict(d1, 0, h);
    if q >= h {
      QuotientBelow(h, dd, u, w);
    } else {
      Spread(h, d1, d0, q);
      MulDistrib(h, d1 * q, r);
      MulMonotone(h, 0, u);
      DivLess(x, dd, q);
    }
  }

  lemma {:induction false} EstimateDone(h: nat, d1: nat, d0: nat, u: nat, w: nat, q: nat, r: nat)
    requires d1 > 0 && h > 1 && d0 < h && u == d1 * q + r
    requires (r >= h && q <= h) || q * d0 <= h * r + w
    ensures d1 * h + d0 > 0 && q <= (u * h + w) / (d1 * h + d0)
  {
    var dd, x := d1 * h + d0, u * h + w;
    MulStrict(d1, 0, h);
    if r >= h && q <= h {
      MulMonotone(d0, q, h);
      MulMonotone(h, d0, r);
    }
    Spread(h, d1, d0, q);
    MulDistrib(h, d1 * q, r);
    MulMonotone(h, 0, u);
    DivLess(x, dd, q);
  }

  /** Should the estimate q with remainder r be lowered? The products are those of limbs. */
  predicate Lower(h: nat, d0: nat, w: nat, q: nat, r: nat)
    requires h > 1
  {
    MulStrict(h, 0, h);
    q >= h || q * d0 % (h * h) > (h * r + w) % (h * h)
  }

  /** The estimate is between the quotient p and its cap, with the right remainder. */
  ghost predicate Estimate(h: nat, d1: nat, u: nat, p: nat, q: nat, r: nat) {
    u == d1 * q + r && p <= q <= h + 1
  }

  lemma {:induction false} StartEstimate(h: nat, d1: nat, d0: nat, u: nat, w: nat)
    requires h > 1 && d1 < h <= 2 * d1 && d0 < h && w < h && u < d1 * h + d0
    ensures 0 <= u - d1 * (u / d1) < h && 0 <= u / d1
    ensures Estimate(h, d1, u, Quotient(h, d1, d0, u, w), u / d1, u - d1 * (u / d1))
  {
    DivBounds(u, d1);
    EstimateAbove(h, d1, d0, u, w);
    EstimateCap(h, d1, d0, u);
  }

  function Quotient(h: nat, d1: nat, d0: nat, u: nat, w: nat): (p: nat)
    requires h > 1 && d1 > 0
  {
    MulStrict(d1, 0, h);
    MulMonotone(h, 0, u);
    DivBounds(u * h + w, d1 * h + d0);
    (u * h + w) / (d1 * h + d0)
  }

  lemma {:induction false} LowerEstimate(h: nat, d1: nat, d0: nat, u: nat, w: nat, q: nat, r: nat)
    requires h > 1 && 0 < d1 && d0 < h && w < h && u < d1 * h + d0 && r < h
    requires Estimate(h, d1, u, Quotient(h, d1, d0, u, w), q, r) && Lower(h, d0, w, q, r)
    ensures q > 0 && Estimate(h, d1, u, Quotient(h, d1, d0, u, w), q - 1, r + d1) && q - 1 <= h
  {
    Unwrapped(h, q, d0, r, w);
    TooLarge(h, d1, d0, u, w, q, r);
    MulDistrib(d1, q, 1);
  }

  lemma {:induction false} FinalEstimate(h: nat, d1: nat, d0: nat, u: nat, w: nat, q: nat, r: nat)
    requires h > 1 && 0 < d1 && d0 < h && w < h && u < d1 * h + d0
    requires Estimate(h, d1, u, Quotient(h, d1, d0, u, w), q, r)
    requires ((r >= h && q <= h) || (r < h && !Lower(h, d0, w, q, r)))
    ensures q == Quotient(h, d1, d0, u, w) < h
  {
    if r < h { Unwrapped(h, q, d0, r, w); }
    EstimateDone(h, d1, d0, u, w, q, r);
    QuotientBelow(h, d1 * h + d0, u, w);
  }

  /** Quotient and remainder of u * h + w by d1 * h + d0. The estimate u / d1 is at most two
      too large, and is lowered while it is. */
  method HalfDigit(h: nat, d1: nat, d0: nat, u: nat, w: nat) returns (q: nat, rest: nat)
    requires h > 1 && d1 < h <= 2 * d1 && d0 < h && w < h && u < d1 * h + d0 <= h * h
    ensures u * h + w == q * (d1 * h + d0) + rest && rest < d1 * h + d0 && q < h
  {
    q := Estimated(h, d1, d0, u, w);
    Remainder(h, d1 * h + d0, u, w, q);
    rest := (u * h + w - q * (d1 * h + d0)) % (h * h);
  }

  method Estimated(h: nat, d1: nat, d0: nat, u: nat, w: nat) returns (q: nat)
    requires h > 1 && d1 < h <= 2 * d1 && d0 < h && w < h && u < d1 * h + d0
    ensures q == Quotient(h, d1, d0, u, w) < h
  {
    StartEstimate(h, d1, d0, u, w);
    q := u / d1;
    var r: nat := u - d1 * q;
    while Lower(h, d0, w, q, r)
      invariant Estimate(h, d1, u, Quotient(h, d1, d0, u, w), q, r) && r < h
      decreases q
    {
      LowerEstimate(h, d1, d0, u, w, q, r);
      q := q - 1;
      r := r + d1;
      if r >= h { break; }
    }
    FinalEstimate(h, d1, d0, u, w, q, r);
  }

  /** The products of the loop guard fit in a limb. */
  lemma {:induction false} Unwrapped(h: nat, q: nat, d0: nat, r: nat, w: nat)
    requires h > 1 && d0 < h && r < h && w < h
    ensures h * h > 0 && (q < h ==> q * d0 % (h * h) == q * d0) && (h * r + w) % (h * h) == h * r + w
  {
    MulStrict(h, 0, h);
    if q < h {
      MulMonotone(q, d0, h);
      MulMonotone(h, q, h - 1);
      MulStrict(h, h - 1, h);
      MulMonotone(q, 0, d0);
      DivModUnique(q * d0, h * h, 0, q * d0);
    }
    MulStrict(h, r, h);
    MulMonotone(h, 0, r);
    DivModUnique(h * r + w, h * h, 0, h * r + w);
  }

  lemma {:induction false} Remainder(h: nat, dd: nat, u: nat, w: nat, q: nat)
    requires h > 1 && 0 < dd <= h * h && u < dd && w < h && q == (u * h + w) / dd
    ensures h * h > 0 && var r := (u * h + w - q * dd) % (h * h); u * h + w == q * dd + r && 0 <= r < dd
  {
    var r := (u * h + w) % dd;
    assert u * h + w == dd * q + r;
    DivModUnique(r, h * h, 0, r);
  }

  // ----- normalization

  lemma {:induction false} ScaledRange(low: nat, d: nat, high: nat, p: nat)
    requires low <= d < high && p > 0
    ensures Mul(low, p) <= Mul(d, p) < Mul(high, p)
  {
    hide Mul;
    MulLess(p, low, d);
    MulLess(p, d, high);
    MulComm(p, d); MulComm(p, high);
  }

  /** A limb shifted left by its leading zeros has its top bit set. */
  lemma {:induction false} Normalized(biL: nat, d: nat, s: nat)
    requires d > 0 && s <= biL && Bits(d) == biL - s
    ensures s < biL && Pow(2, biL) <= 2 * (d * Pow(2, s)) && d * Pow(2, s) < Pow(2, biL)
  {
    hide Mul, Pow, Bits;
    BitsRange(d);
    var p, low, high := Pow(2, s), Pow(2, biL - s - 1), Pow(2, biL - s);
    ScaledRange(low, d, high, p);
    PowAdd(2, biL - s - 1, s);
    PowAdd(2, biL - s, s);
    PowStep(2, biL - 1);
    MulIs(low, p); MulIs(d, p); MulIs(high, p);
  }

  /** Multiplying by p moves the digit above k out of the limb b = k p. */
  lemma {:induction false} SplitOff(u0: nat, k: nat, p: nat, q: nat, r: nat)
    requires u0 == Mul(k, q) + r && r < k && p > 0 && u0 < Mul(k, p)
    ensures q < p && Mul(p, u0) == Mul(q, Mul(k, p)) + Mul(p, r) && Mul(p, r) < Mul(k, p)
  {
    hide Mul;
    MulLess(k, p, q);
    MulAdd(p, Mul(k, q), r);
    MulMul(p, k, q);
    MulComm(Mul(p, k), q);
    MulComm(p, k);
    MulLess(p, r, k);
  }

  /** The bits of a limb shifted left by s: those that leave the limb and those that stay. */
  lemma {:induction false} ShiftedOut(biL: nat, s: nat, u0: nat)
    requires s < biL && u0 < Pow(2, biL)
    ensures u0 * Pow(2, s) == (if s == 0 then 0 else u0 / Pow(2, biL - s)) * Pow(2, biL) + u0 * Pow(2, s) % Pow(2, biL)
    ensures 0 <= (if s == 0 then 0 else u0 / Pow(2, biL - s)) < Pow(2, s)
    ensures 0 <= u0 * Pow(2, s) % Pow(2, biL) < Pow(2, biL)
  {
    var p, b := Pow(2, s), Pow(2, biL);
    if s == 0 {
      DivModUnique(u0 * p, b, 0, u0);
    } else {
      hide Mul, Pow;
      var k := Pow(2, biL - s);
      PowAdd(2, biL - s, s);
      MulIs(k, p);
      ShiftedSplit(u0, k, p, b);
    }
  }

  lemma {:induction false} ShiftedSplit(u0: nat, k: nat, p: nat, b: nat)
    requires k > 0 && p > 0 && b == Mul(k, p) && 0 < b && u0 < b
    ensures u0 * p == u0 / k * b + u0 * p % b && 0 <= u0 / k < p && 0 <= u0 * p % b < b
  {
    hide Mul;
    DivBounds(u0, k);
    var q, r := u0 / k, u0 % k;
    MulIs(k, q);
    SplitOff(u0, k, p, q, r);
    ProductIs(u0, p, q, b, Mul(p, r));
  }

  lemma {:induction false} ProductIs(u0: nat, p: nat, q: nat, b: nat, low: nat)
    requires Mul(p, u0) == Mul(q, b) + low && low < b
    ensures u0 * p == q * b + low && u0 * p % b == low
  {
    hide Mul;
    MulIs(p, u0); MulIs(q, b);
    DivModUnique(u0 * p, b, q, low);
  }

  /** The dividend u1 b + u0, shifted left by s bits within two limbs, for u1 < d. */
  lemma {:induction false} ShiftedDividend(b: nat, u1: nat, u0: nat, d: nat, p: nat, high: nat, low: nat)
    requires b > 0 && p > 0 && u1 < d && u0 < b && d * p < b && high < p && low < b && u0 * p == high * b + low
    ensures u1 * p % b == u1 * p && u1 * p + high < d * p
    ensures (u1 * p + high) * b + low == (u1 * b + u0) * p
  {
    MulStrict(p, u1, d);
    MulMonotone(p, 0, u1);
    DivModUnique(u1 * p, b, 0, u1 * p);
    assert (u1 * b + u0) * p == u1 * p * b + u0 * p by {
      MulDistrib(p, u1 * b, u0);
      MulAssoc(p, u1, b);
    }
    MulDistrib(b, u1 * p, high);
  }

  /** The halves of a limb with its top bit set. */
  lemma {:induction false} Halves(biH: nat, b: nat, h: nat, dd: nat)
    requires biH > 0 && h == Pow(2, biH) && b == h * h && b <= 2 * dd && dd < b
    ensures h > 1 && h <= 2 * (dd / h) && dd / h < h && dd == dd / h * h + dd % h && dd % h < h
  {
    PowStep(2, biH - 1);
    var half := Pow(2, biH - 1);
    assert h * (2 * half) == 2 * (h * half);
    DivLess(dd, h, half);
    DivLess(dd, h, h);
  }

  /** Two quotient digits of half a limb make the quotient of the whole. */
  lemma {:induction false} TwoDigits(h: nat, dd: nat, u1: nat, m: nat, l: nat, q1: nat, r1: nat, q0: nat, r0: nat)
    requires dd > 0 && u1 * h + m == q1 * dd + r1 && r1 * h + l == q0 * dd + r0
    ensures u1 * (h * h) + (m * h + l) == (q1 * h + q0) * dd + r0
  {
    assert (u1 * h + m) * h == u1 * (h * h) + m * h by {
      MulDistrib(h, u1 * h, m);
      MulAssoc(u1, h, h);
    }
    assert (q1 * dd + r1) * h == q1 * h * dd + r1 * h by {
      MulDistrib(h, q1 * dd, r1);
      MulAssoc(q1, h, dd); MulAssoc(q1, dd, h);
    }
    MulDistrib(dd, q1 * h, q0);
  }

  /** Scaling dividend and divisor leaves the quotient and scales the remainder. */
  lemma {:induction false} Unscale(x: nat, d: nat, p: nat, q: nat, r: nat)
    requires d > 0 && p > 0 && x * p == q * (d * p) + r && r < d * p
    ensures q == x / d && r / p == x % d
  {
    assert q * (d * p) == q * d * p by { MulAssoc(q, d, p); }
    MulDistrib(p, x, q * d);
    var y := x - q * d;
    assert r == y * p;
    if y < 0 { MulMonotone(p, y, -1); }
    if y >= d { MulMonotone(p, d, y); }
    DivModUnique(x, d, q, y);
    DivMul(y, p);
  }

  lemma {:induction false} LimbHalves(h: nat, low: nat)
    requires h > 1 && low < h * h
    ensures 0 <= low / h < h && 0 <= low % h < h && low == low / h * h + low % h
  {
    DivBounds(low, h);
    DivLess(low, h, h);
  }

  lemma {:induction false} QuotientFits(b: nat, u1: nat, u0: nat, d: nat)
    requires u1 < d && u0 < b
    ensures (u1 * b + u0) / d < b
  {
    MulMonotone(b, u1 + 1, d);
    MulDistrib(b, u1, 1);
    MulMonotone(b, 0, u1);
    DivLess(u1 * b + u0, d, b);
  }

  /** Divisor and dividend shifted left until the divisor's top bit is set. */
  method Normalize(biL: nat, b: nat, u1: nat, u0: nat, d: nat) returns (s: nat, dd: nat, high: nat, low: nat)
    requires biL > 0 && b == Pow(2, biL) && u1 < d < b && u0 < b
    ensures dd == d * Pow(2, s) && dd < b <= 2 * dd && high < dd && low < b
    ensures high * b + low == (u1 * b + u0) * Pow(2, s)
  {
    s := CoreClz(biL, d);
    var p := Pow(2, s);
    Normalized(biL, d, s);
    ShiftedOut(biL, s, u0);
    var out: nat := if s == 0 then 0 else u0 / Pow(2, biL - s);
    low := u0 * p % b;
    ShiftedDividend(b, u1, u0, d, p, out, low);
    DivModUnique(d * p, b, 0, d * p);
    dd := d * p % b;
    high := u1 * p % b + out;
  }

  /** Divide two limbs by a limb whose top bit is set, half a limb at a time. */
  method TwoHalves(biH: nat, b: nat, h: nat, dd: nat, high: nat, low: nat) returns (q: nat, rr: nat)
    requires biH > 0 && h == Pow(2, biH) && b == h * h && dd < b <= 2 * dd && high < dd && low < b
    ensures high * b + low == q * dd + rr && rr < dd
  {
    Halves(biH, b, h, dd);
    LimbHalves(h, low);
    var d1: nat, d0: nat, msw: nat, lsw: nat := dd / h, dd % h, low / h, low % h;
    var q1, rest := HalfDigit(h, d1, d0, high, msw);
    var q0, r0 := HalfDigit(h, d1, d0, rest, lsw);
    TwoDigits(h, dd, high, msw, lsw, q1, rest, q0, r0);
    q, rr := q1 * h + q0, r0;
  }

  /** The quotient of u1 b + u0 by d and its remainder; all ones when the quotient would not
      fit in a limb. */
  method IntDivInt(biH: nat, b: nat, u1: nat, u0: nat, d: nat) returns (quotient: nat, r: nat)
    requires biH > 0 && b == Pow(2, 2 * biH) && u1 < b && u0 < b && d < b
    ensures u1 >= d ==> quotient == r == b - 1
    ensures u1 < d ==> quotient == (u1 * b + u0) / d < b && r == (u1 * b + u0) % d
  {
    if d == 0 || u1 >= d {
      return b - 1, b - 1;
    }
    PowAdd(2, biH, biH);
    var s, dd, high, low := Normalize(2 * biH, b, u1, u0, d);
    var q, rr := TwoHalves(biH, b, Pow(2, biH), dd, high, low);
    Unscale(u1 * b + u0, d, Pow(2, s), q, rr);
    QuotientFits(b, u1, u0, d);
    quotient := q;
    r := rr / Pow(2, s);
  }
}
