/** Schoolbook division of multi-limb integers (bignum.c): the shifted dividend and divisor as
    values, whose limbs are read off where a digit is estimated, and the digits of the quotient
    in an array. */
module MpiDivision {
  import opened Arith
  import opened LimbVectors
  import opened BitLength
  import opened WordDivision
  import opened MpiResult

  /** Limb i of x in base b. */
  function Limb(b: nat, x: nat, i: nat): (r: nat)
    requires b > 1
    ensures r < b
  {
    DivBounds(x, Pow(b, i));
    x / Pow(b, i) % b
  }

  // ----- limbs of a value

  lemma {:induction false} LimbStep(b: nat, x: nat, k: nat)
    requires b > 1
    ensures 0 <= x / Pow(b, k + 1) && x / Pow(b, k) == x / Pow(b, k + 1) * b + Limb(b, x, k)
  {
    hide Pow;
    PowStep(b, k);
    assert Pow(b, k) * b == b * Pow(b, k);
    DivDiv(x, Pow(b, k), b);
    DivBounds(x, Pow(b, k + 1));
  }

  lemma {:induction false} AboveTop(b: nat, x: nat, k: nat)
    requires b > 1 && x < Pow(b, k)
    ensures x / Pow(b, k) == 0
  {
    DivModUnique(x, Pow(b, k), 0, x);
  }

  /** The two and the three topmost limbs of x, scaled by b so that the third may be missing. */
  lemma {:induction false} TopLimbs(b: nat, x: nat, i: nat)
    requires b > 1 && x < Pow(b, i + 1)
    ensures x / Pow(b, i) == Limb(b, x, i)
    ensures i >= 1 ==> x / Pow(b, i - 1) == Limb(b, x, i) * b + Limb(b, x, i - 1)
    ensures x * b / Pow(b, i) == Limb(b, x, i) * b + (if i < 1 then 0 else Limb(b, x, i - 1))
    ensures i >= 1 ==> x * b / Pow(b, i - 1)
                       == (Limb(b, x, i) * b + Limb(b, x, i - 1)) * b + (if i < 2 then 0 else Limb(b, x, i - 2))
  {
    AboveTop(b, x, i + 1);
    LimbStep(b, x, i);
    if i >= 1 {
      LimbStep(b, x, i - 1);
      PowStep(b, i - 1);
      Rescale(x, Pow(b, i - 1), b);
    } else {
      DivModUnique(x * b, 1, x * b, 0);
    }
    if i >= 2 {
      LimbStep(b, x, i - 2);
      PowStep(b, i - 2);
      Rescale(x, Pow(b, i - 2), b);
    } else if i == 1 {
      DivModUnique(x * b, 1, x * b, 0);
      DivModUnique(x, 1, x, 0);
    }
  }

  lemma {:induction false} Rescale(x: nat, p: nat, b: nat)
    requires p > 0 && b > 0
    ensures b * p > 0 && x * b / (b * p) == x / p
  {
    MulStrict(b, 0, p);
    var q, r := x / p, x % p;
    assert x * b == q * (b * p) + r * b by {
      MulDistrib(b, p * q, r);
      MulAssoc(b, p, q);
    }
    MulStrict(b, r, p);
    MulMonotone(b, 0, r);
    DivModUnique(x * b, b * p, q, r * b);
  }

  // ----- the estimated digit

  lemma {:induction false} Cancel(b: nat, x: nat, y: nat)
    requires b > 0 && b * x <= b * y
    ensures x <= y
  {
    if y < x { MulStrict(b, y, x); }
  }

  /** A digit whose multiple of the divisor fits passes the test on the leading limbs. */
  lemma {:induction false} TestPasses(b: nat, P: nat, M: nat, x: nat, y: nat, q: nat, y2: nat, x3: nat)
    requires b > 0 && P > 0 && M > 0 && q * (y * M) <= x
    requires y2 == y * b / P && P * M > 0 && x3 == x * b / (P * M)
    ensures q * y2 <= x3
  {
    var r := y * b % P;
    assert y * b == y2 * P + r;
    assert q * y2 * (P * M) <= q * (y * M) * b by {
      assert q * (y * M) * b == q * ((y * b) * M) by { MulAssoc(q, y * M, b); MulAssoc(y, M, b); MulAssoc(y, b, M); }
      assert (y * b) * M == y2 * (P * M) + r * M by { MulDistrib(M, y2 * P, r); MulAssoc(y2, P, M); }
      MulMonotone(M, 0, r);
      MulMonotone(q, y2 * (P * M), (y * b) * M);
      MulAssoc(q, y2, P * M);
    }
    MulMonotone(b, q * (y * M), x);
    DivLess(x * b, P * M, q * y2);
    MulMonotone(y2, 0, q);
  }

  lemma {:induction false} ScaledSplit(y: nat, M: nat, b: nat, q: nat, P: nat, r: nat)
    requires y * b == q * P + r
    ensures y * M * b == q * (P * M) + r * M
  {
    MulAssoc(y, M, b); MulAssoc(y, b, M);
    MulDistrib(M, q * P, r);
    MulAssoc(q, P, M);
  }

  lemma {:induction false} Rotate(b: nat, g: nat, z: nat)
    ensures b * (g * z) == g * (z * b)
  {
    MulAssoc(g, z, b);
  }

  /** A digit below b that passes the test exceeds the quotient by less than one divisor. */
  lemma {:induction false} TestBounds(b: nat, P: nat, M: nat, x: nat, y: nat, g: nat, y2: nat, x3: nat)
    requires b > 0 && P > 0 && M > 0 && g < b && g * y2 <= x3 && b <= y2 + 1
    requires y2 == y * b / P && P * M > 0 && x3 == x * b / (P * M)
    ensures g * (y * M) <= x + y * M
  {
    hide *;
    var N, r, s := P * M, y * b % P, x * b % (P * M);
    assert y * b == y2 * P + r && x * b == x3 * N + s;
    var c := y * M * b;
    ScaledSplit(y, M, b, y2, P, r);
    MulMonotone(M, r, P);
    MulMonotone(M, 0, r);
    Overshoot(g, c, y2, N, r * M, x3);
    MulMonotone(N, g, y2);
    Rotate(b, g, y * M);
    MulDistrib(b, x, y * M);
    Cancel(b, g * (y * M), x + y * M);
  }

  lemma {:induction false} Overshoot(g: nat, c: nat, y2: nat, N: nat, e: nat, x3: nat)
    requires c == y2 * N + e && e <= N && g * y2 <= x3
    ensures g * c <= x3 * N + g * N
  {
    MulDistrib(g, y2 * N, e);
    MulAssoc(g, y2, N);
    MulMonotone(N, g * y2, x3);
    MulMonotone(g, e, N);
  }

  lemma {:induction false} DividendBounds(b: nat, t: nat, j: nat, x: nat, y: nat)
    requires b > 1 && 0 < y < Pow(b, t + 1) && x < y * Pow(b, j + 1)
    ensures y * Pow(b, j) > 0 && x < Pow(b, t + j + 2) && 0 <= x / (y * Pow(b, j)) < b
  {
    PowStep(b, j);
    QuotientIsDigit(b, Pow(b, j), x, y);
    PowAdd(b, t + 1, j + 1);
    ProductBelow(x, y, Pow(b, j + 1), Pow(b, t + 1));
  }

  lemma {:induction false} QuotientIsDigit(b: nat, M: nat, x: nat, y: nat)
    requires M > 0 && y > 0 && x < y * (b * M)
    ensures y * M > 0 && 0 <= x / (y * M) < b
  {
    MulStrict(M, 0, y);
    MulAssoc(y, M, b);
    DivBounds(x, y * M);
    DivLess(x, y * M, b);
  }

  lemma {:induction false} ProductBelow(x: nat, y: nat, k: nat, bound: nat)
    requires x < y * k && y < bound
    ensures x < bound * k
  {
    MulMonotone(k, y, bound);
  }

  lemma {:induction false} TopNonzero(b: nat, y: nat, t: nat)
    requires b > 1 && Pow(b, t) <= y < Pow(b, t + 1)
    ensures Limb(b, y, t) == y / Pow(b, t) > 0
  {
    TopLimbs(b, y, t);
    DivLess(y, Pow(b, t), 1);
  }

  /** The quotient of the leading limbs is at least the quotient. */
  lemma {:induction false} StartHighEnough(b: nat, t: nat, j: nat, x: nat, y: nat)
    requires b > 1 && Pow(b, t) <= y < Pow(b, t + 1) && x < Pow(b, t + j + 2)
    ensures y * Pow(b, j) > 0 && Limb(b, y, t) > 0
    ensures x / (y * Pow(b, j)) <= (Limb(b, x, t + j + 1) * b + Limb(b, x, t + j)) / Limb(b, y, t)
  {
    var M, P := Pow(b, j), Pow(b, t);
    MulStrict(M, 0, y);
    TopNonzero(b, y, t);
    var yt := y / P;
    var q := x / (y * M);
    DivBounds(x, y * M);
    PowAdd(b, t, j);
    LeadingQuotient(P, M, x, y, q, yt);
    var x2 := x / Pow(b, t + j);
    DivBounds(x, Pow(b, t + j));
    DivLess(x2, yt, q);
    TopLimbs(b, x, t + j + 1);
  }

  lemma {:induction false} LeadingQuotient(P: nat, M: nat, x: nat, y: nat, q: nat, yt: nat)
    requires P > 0 && M > 0 && P * M > 0 && yt == y / P && q * (y * M) <= x
    ensures q * yt <= x / (P * M)
  {
    var r := y % P;
    assert y == yt * P + r;
    assert y * M == yt * (P * M) + r * M by { MulDistrib(M, yt * P, r); MulAssoc(yt, P, M); }
    MulMonotone(M, 0, r);
    MulMonotone(q, yt * (P * M), y * M);
    MulAssoc(q, yt, P * M);
    MulMonotone(yt, 0, q);
    DivLess(x, P * M, q * yt);
  }

  // ----- one digit of the quotient

  /** The two top limbs of a number of t + 1 limbs; a missing limb reads as zero. */
  function TopTwo(b: nat, y: nat, t: nat): (r: nat)
    requires b > 1
    ensures r == Limb(b, y, t) * b + if t < 1 then 0 else Limb(b, y, t - 1)
  {
    MulMonotone(b, 0, Limb(b, y, t));
    Limb(b, y, t) * b + if t < 1 then 0 else Limb(b, y, t - 1)
  }

  /** The three limbs of x from i downward. */
  function TopThree(b: nat, x: nat, i: nat): (r: nat)
    requires b > 1 && i > 0
  {
    MulMonotone(b, 0, TopTwo(b, x, i));
    TopTwo(b, x, i) * b + if i < 2 then 0 else Limb(b, x, i - 2)
  }

  lemma {:induction false} TopTwoIs(b: nat, y: nat, t: nat)
    requires b > 1 && Pow(b, t) <= y < Pow(b, t + 1)
    ensures TopTwo(b, y, t) == y * b / Pow(b, t) && b <= TopTwo(b, y, t) + 1
  {
    TopLimbs(b, y, t);
    TopNonzero(b, y, t);
    MulMonotone(b, 1, Limb(b, y, t));
  }

  lemma {:induction false} TopThreeIs(b: nat, x: nat, t: nat, j: nat)
    requires b > 1 && x < Pow(b, t + j + 2)
    ensures Pow(b, t) * Pow(b, j) > 0 && TopThree(b, x, t + j + 1) == x * b / (Pow(b, t) * Pow(b, j))
  {
    PowAdd(b, t, j);
    TopLimbs(b, x, t + j + 1);
  }

  /** The largest digit up to `start` that passes the test, by stepping down. The digit is a
      limb: adding one may wrap to zero, and the first step takes that back. */
  method LowerDigit(b: nat, start: nat, T1: nat, T2: nat) returns (z: nat)
    requires start < b
    ensures z <= start && z * T1 <= T2 && (z == start || (z + 1) * T1 > T2)
  {
    z := (start + 1) % b;
    StepDown(b, start);
    z := (z + (b - 1)) % b;
    while T1 * z > T2
      invariant z <= start && (z == start || (z + 1) * T1 > T2)
      decreases z
    {
      assert z > 0;
      StepDown(b, z - 1);
      z := (z + (b - 1)) % b;
    }
  }

  lemma {:induction false} StepDown(b: nat, z: nat)
    requires z < b
    ensures ((z + 1) % b + (b - 1)) % b == z && (z + 1 + (b - 1)) % b == z && 0 <= (z + 1) % b
  {
    DivModUnique(z + b, b, 1, z);
    if z + 1 < b {
      DivModUnique(z + 1, b, 0, z + 1);
    } else {
      DivModUnique(z + 1, b, 1, 0);
      DivModUnique(b - 1, b, 0, b - 1);
    }
  }

  /** Stepping down from at least the true digit stops at the true digit or one above. */
  lemma {:induction false} DigitIsClose(b: nat, P: nat, M: nat, X: nat, Y: nat, start: nat, z: nat, T1: nat, T2: nat)
    requires b > 0 && P > 0 && M > 0 && P * M > 0 && Y * M > 0 && start < b && X / (Y * M) <= start
    requires T1 == Y * b / P && T2 == X * b / (P * M) && b <= T1 + 1
    requires z <= start && z * T1 <= T2 && (z == start || (z + 1) * T1 > T2)
    ensures z == X / (Y * M) || z == X / (Y * M) + 1
  {
    var W := Y * M;
    QuotientBounds(X, W);
    var q: nat := X / W;
    TestPasses(b, P, M, X, Y, q, T1, T2);
    StoppedHigh(z, start, q, T1, T2);
    TestBounds(b, P, M, X, Y, z, T1, T2);
    CloseAbove(W, q, X, z);
  }

  lemma {:induction false} QuotientBounds(X: nat, W: nat)
    requires W > 0
    ensures 0 <= X / W && X / W * W <= X < (X / W + 1) * W
  {
    DivBounds(X, W);
    MulDistrib(W, X / W, 1);
  }

  lemma {:induction false} StoppedHigh(z: nat, start: nat, q: nat, T1: nat, T2: nat)
    requires q <= start && q * T1 <= T2 && (z == start || (z + 1) * T1 > T2)
    ensures q <= z
  {
    if z < q { MulMonotone(T1, z + 1, q); }
  }

  lemma {:induction false} CloseAbove(W: nat, q: nat, X: nat, z: nat)
    requires X < (q + 1) * W && z * W <= X + W
    ensures z <= q + 1
  {
    MulDistrib(W, q + 1, 1);
    if z >= q + 2 { MulMonotone(W, q + 2, z); }
  }

  /** The first estimate, from the two leading limbs of the dividend and one of the divisor. */
  method FirstDigit(biH: nat, b: nat, X: nat, Y: nat, i: nat, t: nat) returns (z: nat)
    requires biH > 0 && b == Pow(2, 2 * biH) && b > 1 && i > t
    requires Pow(b, t) <= Y < Pow(b, t + 1) && X < Y * Pow(b, i - t)
    ensures Y * Pow(b, i - t - 1) > 0 && X / (Y * Pow(b, i - t - 1)) <= z < b
  {
    ghost var j: nat := i - t - 1;
    DividendBounds(b, t, j, X, Y);
    StartHighEnough(b, t, j, X, Y);
    var xi, x1, yt := Limb(b, X, i), Limb(b, X, i - 1), Limb(b, Y, t);
    if xi >= yt {
      z := b - 1;
    } else {
      var r;
      z, r := IntDivInt(biH, b, xi, x1, yt);
    }
  }

  /** The digit estimated from the two leading limbs of the divisor and the three of the
      dividend: the true digit, or one more. */
  method EstimateDigit(biH: nat, b: nat, X: nat, Y: nat, i: nat, t: nat) returns (z: nat)
    requires biH > 0 && b == Pow(2, 2 * biH) && b > 1 && i > t
    requires Pow(b, t) <= Y < Pow(b, t + 1) && X < Y * Pow(b, i - t)
    ensures z < b && Y * Pow(b, i - t - 1) > 0
    ensures var q := X / (Y * Pow(b, i - t - 1)); z == q || z == q + 1
  {
    ghost var j: nat := i - t - 1;
    var start := FirstDigit(biH, b, X, Y, i, t);
    DividendBounds(b, t, j, X, Y);
    TopTwoIs(b, Y, t);
    TopThreeIs(b, X, t, j);
    z := LowerDigit(b, start, TopTwo(b, Y, t), TopThree(b, X, i));
    DigitIsClose(b, Pow(b, t), Pow(b, j), X, Y, start, z, TopTwo(b, Y, t), TopThree(b, X, i));
  }

  // ----- the whole division

  /** Take the next digit off the dividend: subtract the estimated multiple and, when that was
      one too many, add the divisor back once. */
  method NextDigit(biH: nat, b: nat, X: nat, Y: nat, i: nat, t: nat) returns (z: nat, rest: nat)
    requires biH > 0 && b == Pow(2, 2 * biH) && b > 1 && i > t
    requires Pow(b, t) <= Y < Pow(b, t + 1) && X < Y * Pow(b, i - t)
    ensures z < b && X == z * (Y * Pow(b, i - t - 1)) + rest && rest < Y * Pow(b, i - t - 1)
  {
    var e := EstimateDigit(biH, b, X, Y, i, t);
    var W := Y * Pow(b, i - t - 1);
    AddBack(X, W, e);
    var x := X - e * W;
    if x < 0 {
      x := x + W;
      e := e - 1;
    }
    z, rest := e, x;
  }

  lemma {:induction false} AddBack(X: nat, W: nat, e: nat)
    requires W > 0 && (e == X / W || e == X / W + 1)
    ensures X - e * W >= 0 ==> X - e * W < W
    ensures X - e * W < 0 ==> e > 0 && X == (e - 1) * W + (X - e * W + W) && 0 <= X - e * W + W < W
  {
    var q := X / W;
    MulDistrib(W, q, 1);
    MulDistrib(W, e, -1);
  }

  /** Index of the topmost limb of a positive number. */
  function TopIndex(biL: nat, v: nat): (i: nat)
    requires biL > 0 && v > 0
  {
    BitsRange(v);
    DivBounds(Bits(v) - 1, biL);
    (Bits(v) - 1) / biL
  }

  lemma {:induction false} TopIndexIs(biL: nat, b: nat, v: nat)
    requires biL > 0 && v > 0 && b == Pow(2, biL)
    ensures Pow(b, TopIndex(biL, v)) <= v < Pow(b, TopIndex(biL, v) + 1)
  {
    hide Pow;
    var i, k := TopIndex(biL, v), Bits(v) - 1;
    BitsRange(v);
    DivBounds(k, biL);
    PowPow(2, biL, i); PowPow(2, biL, i + 1);
    MulIs(i, biL); MulIs(i + 1, biL);
    assert k == biL * i + k % biL;
    MulDistrib(biL, i, 1);
    BitsFit(v, Mul(i + 1, biL));
    BitsFit(v, Mul(i, biL));
  }

  lemma {:induction false} TopIndexMonotone(biL: nat, v: nat, w: nat)
    requires biL > 0 && 0 < v <= w
    ensures TopIndex(biL, v) <= TopIndex(biL, w)
  {
    BitsRange(v);
    BitsMonotone(v, w);
    var x, y := Bits(v) - 1, Bits(w) - 1;
    DivBounds(x, biL);
    DivLess(y, biL, x / biL);
  }

  lemma {:induction false} ValUpdate(b: nat, s: seq<nat>, j: nat, g: nat)
    requires j < |s| && s[j] == 0
    ensures Val(b, s[j := g]) == Val(b, s) + Mul(Pow(b, j), g)
  {
    if j == 0 {
      MulUnit(g);
      assert s[0 := g][1..] == s[1..];
    } else {
      assert s[j := g][1..] == s[1..][j - 1 := g];
      ValUpdate(b, s[1..], j - 1, g);
      MulNest(b, Val(b, s[1..]), Pow(b, j - 1), g);
    }
  }

  /** The digits found so far, times the divisor, plus what is left of the dividend. */
  ghost predicate Progress(b: nat, z: seq<nat>, Y: nat, X: nat, whole: nat, next: nat) {
    && next <= |z| && whole == Mul(Val(b, z), Y) + X && X < Y * Pow(b, next)
    && Limbs(b, z) && forall k :: 0 <= k < next ==> z[k] == 0
  }

  lemma {:induction false} DigitProgress(b: nat, z: seq<nat>, Y: nat, X: nat, whole: nat, j: nat, g: nat, rest: nat)
    requires Progress(b, z, Y, X, whole, j + 1) && g < b && X == g * (Y * Pow(b, j)) + rest && rest < Y * Pow(b, j)
    ensures Progress(b, z[j := g], Y, rest, whole, j)
  {
    ValUpdate(b, z, j, g);
    MulAdd(Y, Val(b, z), Mul(Pow(b, j), g));
    MulIs(Mul(Pow(b, j), g), Y);
    MulIs(Pow(b, j), g);
    assert Pow(b, j) * g * Y == g * (Y * Pow(b, j)) by {
      MulAssoc(Pow(b, j), g, Y); MulAssoc(g, Y, Pow(b, j)); MulAssoc(g, Pow(b, j), Y);
    }
  }

  /** The topmost digit, by repeated subtraction. */
  method TopDigit(b: nat, X: nat, W: nat, ghost bound: nat) returns (z: nat, rest: nat)
    requires W > 0 && X < b * bound && bound <= W
    ensures X == z * W + rest && rest < W && z < b
  {
    z, rest := 0, X;
    while rest >= W
      invariant X == z * W + rest
      invariant z < b
      decreases rest
    {
      DigitFits(b, X, W, bound, z, rest);
      MulDistrib(W, z, 1);
      z := (z + 1) % b;
      rest := rest - W;
    }
  }

  lemma {:induction false} DigitFits(b: nat, X: nat, W: nat, bound: nat, z: nat, rest: nat)
    requires X < b * bound && bound <= W && X == z * W + rest && rest >= W
    ensures z + 1 < b && (z + 1) % b == z + 1
  {
    MulDistrib(W, z, 1);
    MulMonotone(z + 1, bound, W);
    if z + 1 >= b { MulMonotone(bound, b, z + 1); }
    DivModUnique(z + 1, b, 0, z + 1);
  }

  /** How far the operands are shifted so that the divisor's bit length is one less than a
      multiple of the limb size. */
  function NormalShift(biL: nat, B: nat): (k: nat)
    requires biL > 0
    ensures k < biL && (Bits(B) + k) % biL == biL - 1
  {
    var k := Bits(B) % biL;
    ShiftAligns(Bits(B), biL);
    if k < biL - 1 then biL - 1 - k else 0
  }

  lemma {:induction false} ShiftAligns(n: nat, biL: nat)
    requires biL > 0
    ensures (n + (biL - 1 - n % biL)) % biL == biL - 1
  {
    DivModUnique(n + (biL - 1 - n % biL), biL, n / biL, biL - 1);
  }

  /** Shifting keeps the order of the operands and adds at most one limb. */
  lemma {:induction false} Shifted(biL: nat, b: nat, alloc: nat, A: nat, B: nat, k: nat)
    requires biL > 0 && b == Pow(2, biL) && 0 < B <= A < Pow(b, alloc) && k < biL
    ensures 0 < B * Pow(2, k) <= A * Pow(2, k) < Pow(b, alloc + 1)
  {
    var p := Pow(2, k);
    MulStrict(p, 0, B);
    MulMonotone(p, B, A);
    PowStrict(2, k, biL);
    ShiftedBelow(A, p, Pow(b, alloc), b);
    PowStep(b, alloc);
  }

  /** The indices of the topmost limbs. */
  lemma {:induction false} TopIndices(biL: nat, b: nat, alloc: nat, X: nat, Y: nat)
    requires biL > 0 && b == Pow(2, biL) && b > 1 && 0 < Y <= X < Pow(b, alloc + 1)
    ensures var n, t := TopIndex(biL, X), TopIndex(biL, Y);
      && t <= n <= alloc && Pow(b, t) <= Y < Pow(b, t + 1)
      && 0 < Pow(b, n) <= Y * Pow(b, n - t) && X < b * Pow(b, n)
  {
    hide *;
    TopIndexIs(biL, b, X);
    TopIndexIs(biL, b, Y);
    TopIndexMonotone(biL, Y, X);
    var n, t := TopIndex(biL, X), TopIndex(biL, Y);
    IndexBelow(b, n, alloc + 1, X);
    PowStep(b, n);
    PowAdd(b, t, n - t);
    MulMonotone(Pow(b, n - t), Pow(b, t), Y);
  }

  lemma {:induction false} ShiftedBelow(x: nat, p: nat, bound: nat, b: nat)
    requires x < bound && p < b
    ensures x * p < b * bound
  {
    MulMonotone(p, x, bound);
    MulStrict(bound, p, b);
  }

  lemma {:induction false} IndexBelow(b: nat, i: nat, j: nat, x: nat)
    requires b > 1 && Pow(b, i) <= x < Pow(b, j)
    ensures i < j
  {
    if i >= j { PowMonotone(b, j, i); }
  }

  /** The digits of the quotient of X by Y and the remainder. */
  method Digits(biH: nat, b: nat, X: nat, Y: nat, n: nat, t: nat, Z: array<nat>) returns (rest: nat)
    requires biH > 0 && b == Pow(2, 2 * biH) && b > 1 && t <= n && n - t < Z.Length
    requires Pow(b, t) <= Y < Pow(b, t + 1) && Pow(b, n) <= Y * Pow(b, n - t) && X < b * Pow(b, n)
    requires forall l :: 0 <= l < Z.Length ==> Z[l] == 0
    modifies Z
    ensures X == Mul(Val(b, Z[..]), Y) + rest && rest < Y && Limbs(b, Z[..])
  {
    ghost var whole := X;
    ValZeros(b, Z[..]);
    MulUnit(Y);
    var top;
    top, rest := TopDigit(b, X, Y * Pow(b, n - t), Pow(b, n));
    FirstProgress(b, Z[..], Y, X, n - t, top, rest);
    ghost var z := Z[..][n - t := top];
    Z[n - t] := top;
    assert Z[..] == z;
    var i := n;
    while i > t
      invariant t <= i <= n && Progress(b, Z[..], Y, rest, whole, i - t)
    {
      var g, r := NextDigit(biH, b, rest, Y, i, t);
      DigitProgress(b, Z[..], Y, rest, whole, i - t - 1, g, r);
      z := Z[..][i - t - 1 := g];
      Z[i - t - 1] := g;
      assert Z[..] == z;
      rest := r;
      i := i - 1;
    }
  }

  lemma {:induction false} FirstProgress(b: nat, z: seq<nat>, Y: nat, X: nat, j: nat, g: nat, rest: nat)
    requires j < |z| && (forall l :: 0 <= l < |z| ==> z[l] == 0) && g < b && X == g * (Y * Pow(b, j)) + rest
    requires rest < Y * Pow(b, j)
    ensures Progress(b, z[j := g], Y, rest, X, j)
  {
    ValZeros(b, z);
    ValUpdate(b, z, j, g);
    MulIs(Mul(Pow(b, j), g), Y);
    MulIs(Pow(b, j), g);
    assert Pow(b, j) * g * Y == g * (Y * Pow(b, j)) by {
      MulAssoc(Pow(b, j), g, Y); MulAssoc(g, Y, Pow(b, j)); MulAssoc(g, Pow(b, j), Y);
    }
  }

  /** Quotient and remainder of positive A by B <= A. */
  method DivAbs(biH: nat, b: nat, alloc: nat, A: nat, B: nat) returns (q: nat, r: nat)
    requires biH > 0 && b == Pow(2, 2 * biH) && b > 1 && 0 < B <= A < Pow(b, alloc)
    ensures A == Mul(q, B) + r && r < B && q > 0
  {
    var biL := 2 * biH;
    var k := NormalShift(biL, B);
    Shifted(biL, b, alloc, A, B, k);
    var X, Y := A * Pow(2, k), B * Pow(2, k);
    TopIndices(biL, b, alloc, X, Y);
    var n, t := TopIndex(biL, X), TopIndex(biL, Y);
    var Z := new nat[alloc + 2](_ => 0);
    var rest := Digits(biH, b, X, Y, n, t, Z);
    q := Val(b, Z[..]);
    Unshift(A, B, Pow(2, k), q, rest);
    r := rest / Pow(2, k);
  }

  lemma {:induction false} Unshift(A: nat, B: nat, p: nat, q: nat, rest: nat)
    requires p > 0 && 0 < B <= A && A * p == Mul(q, B * p) + rest && rest < B * p
    ensures 0 <= rest / p && A == Mul(q, B) + rest / p && rest / p < B && q > 0
  {
    MulIs(q, B * p);
    Unscale(A, B, p, q, rest);
    MulIs(q, B);
    MulUnit(B);
  }

  // ----- signs

  function Abs(x: int): nat { if x < 0 then 0 - x else x }

  function Sign(x: int): int { if x < 0 then -1 else 1 }

  /** What division promises: A = QB + R with |R| < |B|, and R zero or of A's sign. */
  ghost predicate Divided(A: int, B: int, Q: int, R: int) {
    A == Q * B + R && Abs(R) < Abs(B) && (R == 0 || Sign(R) == Sign(A))
  }

  /** Long division; `alloc` is the number of limbs that A takes. */
  method DivMpi(biH: nat, b: nat, alloc: nat, A: int, B: int) returns (res: Result<(int, int)>)
    requires biH > 0 && b == Pow(2, 2 * biH) && b > 1 && Abs(A) < Pow(b, alloc)
    ensures B == 0 ==> res == Err(DivisionByZero)
    ensures B != 0 ==> res.Ok? && Divided(A, B, res.value.0, res.value.1)
  {
    if B == 0 { return Err(DivisionByZero); }
    if Abs(A) < Abs(B) { return Ok((0, A)); }
    var q, r := DivAbs(biH, b, alloc, Abs(A), Abs(B));
    MulIs(q, Abs(B));
    SignedDivision(A, B, q, r);
    return Ok((Sign(A) * Sign(B) * q, Sign(A) * r));
  }

  lemma {:induction false} SignedDivision(A: int, B: int, q: nat, r: nat)
    requires B != 0 && Abs(A) == q * Abs(B) + r && r < Abs(B)
    ensures Divided(A, B, Sign(A) * Sign(B) * q, Sign(A) * r)
  {
    assert (0 - q) * B == 0 - q * B && q * (0 - B) == 0 - q * B;
  }

  /** Quotient and remainder with the promised properties are unique. */
  lemma {:induction false} DividedUnique(A: int, B: int, Q: int, R: int, Q': int, R': int)
    requires Divided(A, B, Q, R) && Divided(A, B, Q', R')
    ensures Q == Q' && R == R'
  {
    assert (Q - Q') * B == R' - R && (Q' - Q) * B == R - R';
    if Q - Q' >= 1 { FarApart(Q - Q', B); }
    if Q' - Q >= 1 { FarApart(Q' - Q, B); }
  }

  lemma {:induction false} FarApart(k: int, B: int)
    requires k >= 1 && B != 0
    ensures Abs(k * B) >= Abs(B)
  {
    if B > 0 { MulMonotone(B, 1, k); } else { MulMonotone(-B, 1, k); }
  }

  /** The residue of A modulo a positive B. */
  method ModMpi(biH: nat, b: nat, alloc: nat, A: int, B: int) returns (res: Result<nat>)
    requires biH > 0 && b == Pow(2, 2 * biH) && b > 1 && Abs(A) < Pow(b, alloc)
    ensures B < 0 ==> res == Err(NegativeValue)
    ensures B == 0 ==> res == Err(DivisionByZero)
    ensures B > 0 ==> res == Ok(A % B)
  {
    if B < 0 { return Err(NegativeValue); }
    var d := DivMpi(biH, b, alloc, A, B);
    if d.Err? { return Err(d.error); }
    var R := d.value.1;
    ghost var q := d.value.0;
    while R < 0
      invariant A == q * B + R
      decreases -R
    {
      R := R + B;
      q := q - 1;
    }
    while R >= B
      invariant 0 <= R && A == q * B + R
      decreases R
    {
      R := R - B;
      q := q + 1;
    }
    DivModUnique(A, B, q, R);
    return Ok(R);
  }
}
