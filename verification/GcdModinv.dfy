/** Constant-time greatest common divisor and modular inverse on limb vectors
    (mbedtls_mpi_core_gcd_modinv_odd in bignum_core.c). */
module GcdModinv {
  import opened Arith
  import opened LimbVectors
  import opened MulAddStep
  import opened BignumCore
  import opened BitLength
  import opened Montgomery
  import opened ExpMod
  import opened ShiftRight
  import opened BinaryGcd

  /** The first n limbs of X are limbs, and their value is x. */
  ghost predicate Is(b: nat, X: array<nat>, n: nat, x: nat)
    reads X
  {
    Fits(X, 0, n) && Limbs(b, X[0..n]) && Val(b, X[0..n]) == x
  }

  /** X = A - B when A is not below B. */
  method SubExact(b: nat, X: array<nat>, A: array<nat>, B: array<nat>, n: nat, ghost x: nat, ghost y: nat)
    requires b > 1 && Fits(X, 0, n) && X != A && X != B && Is(b, A, n, x) && Is(b, B, n, y) && y <= x
    modifies X
    ensures Is(b, X, n, x - y)
  {
    ghost var p := Pow(b, n);
    ValBound(b, A[0..n]);
    var c := Sub(b, X, 0, A, 0, B, 0, n);
    ValBound(b, X[0..n]);
    MulUnit(p);
  }

  /** X = A when assign, for a limb vector of value x and one of value y. */
  method Assign(b: nat, X: array<nat>, A: array<nat>, n: nat, assign: bool, ghost x: nat, ghost y: nat)
    requires X != A && Is(b, X, n, x) && Is(b, A, n, y)
    modifies X
    ensures Is(b, X, n, if assign then y else x)
  {
    CondAssign(X, 0, A, 0, n, assign);
  }

  method CopyValue(b: nat, X: array<nat>, A: array<nat>, n: nat, ghost y: nat)
    requires X != A && Fits(X, 0, n) && Is(b, A, n, y)
    modifies X
    ensures Is(b, X, n, y)
  {
    Copy(X, 0, A, 0, n);
  }

  method Swap(b: nat, X: array<nat>, Y: array<nat>, n: nat, swap: bool, ghost x: nat, ghost y: nat)
    requires X != Y && Is(b, X, n, x) && Is(b, Y, n, y)
    modifies X, Y
    ensures Is(b, X, n, if swap then y else x) && Is(b, Y, n, if swap then x else y)
  {
    assert X[..n] == X[0..n] && Y[..n] == Y[0..n];
    CondSwap(X, Y, n, swap);
    assert X[..n] == X[0..n] && Y[..n] == Y[0..n];
  }

  method HalveValue(biL: nat, b: nat, X: array<nat>, n: nat, ghost x: nat)
    requires biL > 0 && b == Pow(2, biL) && b > 1 && Is(b, X, n, x)
    modifies X
    ensures Is(b, X, n, x / 2)
  {
    ShiftR(biL, b, X, n, 1);
    PowStep(2, 0);
  }

  method OddValueOf(biL: nat, b: nat, X: array<nat>, n: nat, ghost x: nat) returns (odd: bool)
    requires WordSize(biL, b) && n > 0 && Is(b, X, n, x)
    ensures odd <==> x % 2 == 1
  {
    OddValue(biL, b, X[0..n]);
    odd := X[0] % 2 == 1;
  }

  method Below(b: nat, A: array<nat>, B: array<nat>, n: nat, ghost x: nat, ghost y: nat) returns (lt: bool)
    requires b > 1 && Is(b, A, n, x) && Is(b, B, n, y)
    ensures lt <==> x < y
  {
    assert A[..n] == A[0..n] && B[..n] == B[0..n];
    lt := LtCt(b, A, B, n);
  }

  /** The part of an iteration that steps u and v. */
  method GcdRound(biL: nat, b: nat, n: nat, u: array<nat>, v: array<nat>, d: array<nat>, t1: array<nat>, t2: array<nat>,
      ghost x: nat, ghost y: nat) returns (uOdd: bool, vOdd: bool, swap: bool)
    requires WordSize(biL, b) && n > 0 && Is(b, u, n, x) && Is(b, v, n, y) && x <= y
    requires Fits(d, 0, n) && Fits(t1, 0, n) && Fits(t2, 0, n)
    requires u != v && u != d && u != t1 && u != t2 && v != d && v != t1 && v != t2 && d != t1 && d != t2 && t1 != t2
    modifies u, v, d, t1, t2
    ensures (uOdd <==> x % 2 == 1) && (vOdd <==> y % 2 == 1) && (swap <==> Halved(x, y) < Whole(x, y))
    ensures Is(b, u, n, StepU(x, y)) && Is(b, v, n, StepV(x, y))
  {
    WordSizeBase(biL, b);
    uOdd := OddValueOf(biL, b, u, n, x);
    vOdd := OddValueOf(biL, b, v, n, y);
    SubExact(b, d, v, u, n, y, x);
    CopyValue(b, t1, d, n, y - x);
    Assign(b, t1, u, n, uOdd && vOdd, y - x, x);
    CopyValue(b, t2, u, n, x);
    ghost var s := if uOdd && !vOdd then y else x;
    Assign(b, t2, v, n, uOdd && !vOdd, x, y);
    Assign(b, t2, d, n, uOdd && vOdd, s, y - x);
    s := if uOdd && vOdd then y - x else s;
    HalveValue(biL, b, t2, n, s);
    ghost var w, h := Whole(x, y), Halved(x, y);
    assert s / 2 == h;
    CopyValue(b, u, t1, n, w);
    CopyValue(b, v, t2, n, h);
    swap := Below(b, v, u, n, h, w);
    Swap(b, u, v, n, swap, w, h);
  }

  /** X = A - B modulo N: the borrow of the subtraction asks for N to be added back. */
  method SubModLimbs(b: nat, X: array<nat>, A: array<nat>, B: array<nat>, N: array<nat>, n: nat, ghost x: nat,
                     ghost y: nat, ghost m: nat)
    requires b > 1 && Fits(X, 0, n) && X != A && X != B && X != N
    requires Is(b, A, n, x) && Is(b, B, n, y) && Is(b, N, n, m) && x < m && y < m
    modifies X
    ensures Is(b, X, n, SubMod(x, y, m))
  {
    ghost var p := Pow(b, n);
    ghost var z := N[0..n];
    ValBound(b, z);
    var c := Sub(b, X, 0, A, 0, B, 0, n);
    ValBound(b, X[0..n]);
    assert N[0..n] == z;
    var c' := AddIf(b, X, 0, N, 0, n, c != 0);
    ValBound(b, X[0..n]);
    MulUnit(p);
  }

  lemma {:induction false} TopWeight(biL: nat, b: nat, n: nat)
    requires biL > 0 && b == Pow(2, biL) && n > 0
    ensures b == 2 * Pow(2, biL - 1) && Pow(b, n) == 2 * Mul(Pow(b, n - 1), Pow(2, biL - 1))
  {
    var p, h := Pow(b, n - 1), Pow(2, biL - 1);
    PowStep(2, biL - 1);
    MulIs(2, h);
    MulMul(2, h, p);
    MulComm(p, h);
    MulIs(2, Mul(p, h));
  }

  /** The top limb of a shifted vector has its highest bit free, and setting that bit adds
      half of b^n to the value. */
  lemma {:induction false} RestoreCarry(biL: nat, b: nat, s: seq<nat>, s': seq<nat>, n: nat, c: nat)
    requires biL > 0 && b == Pow(2, biL) && n > 0 && |s| == n && Limbs(b, s) && c <= 1
    requires 2 * Val(b, s) < Pow(b, n)
    requires s' == s[..n - 1] + [s[n - 1] + Mul(c, Pow(2, biL - 1))]
    ensures Limbs(b, s') && 2 * Val(b, s') == 2 * Val(b, s) + Mul(c, Pow(b, n))
  {
    hide Mul;
    var p, h, top := Pow(b, n - 1), Pow(2, biL - 1), s[n - 1];
    TopWeight(biL, b, n);
    ValPrefix(b, s, n - 1);
    PushLimb(b, s[..n - 1], s'[n - 1]);
    assert s[..n] == s;
    MulAdd(p, top, Mul(c, h));
    MulLess(p, h, top);
    MulUnit(Pow(b, n)); MulUnit(h); MulUnit(p);
  }

  /** X = X / 2 modulo the odd N: N is added to an odd X, and the carry of that addition
      becomes the top bit after the shift. */
  method Div2ModOdd(biL: nat, b: nat, X: array<nat>, N: array<nat>, n: nat, ghost x: nat, ghost m: nat)
    requires WordSize(biL, b) && n > 0 && X != N && Is(b, X, n, x) && Is(b, N, n, m) && x < m && m % 2 == 1
    modifies X
    ensures Is(b, X, n, HalfMod(x, m))
  {
    hide Val, Pow;
    WordSizeBase(biL, b);
    ghost var sum := if x % 2 == 1 then x + m else x;
    var odd := OddValueOf(biL, b, X, n, x);
    var c := AddIf(b, X, 0, N, 0, n, odd);
    ghost var y := Val(b, X[0..n]);
    ValBound(b, X[0..n]);
    HalveValue(biL, b, X, n, y);
    SetTopBit(biL, b, X, n, c, y / 2);
    MulUnit(Pow(b, n));
    TopWeight(biL, b, n);
  }

  /** `X[limbs - 1] |= c << (biL - 1)`: the top limb is below 2^(biL-1), so this is addition. */
  method SetTopBit(biL: nat, b: nat, X: array<nat>, n: nat, c: nat, ghost x: nat)
    requires biL > 0 && b == Pow(2, biL) && n > 0 && c <= 1 && Is(b, X, n, x) && 2 * x < Pow(b, n)
    modifies X
    ensures Limbs(b, X[0..n]) && 2 * Val(b, X[0..n]) == 2 * x + Mul(c, Pow(b, n))
  {
    ghost var s := X[0..n];
    X[n - 1] := X[n - 1] + Mul(c, Pow(2, biL - 1));
    assert X[0..n] == s[..n - 1] + [s[n - 1] + Mul(c, Pow(2, biL - 1))];
    RestoreCarry(biL, b, s, X[0..n], n, c);
  }

  /** The part of an iteration that steps the coefficients r and q along. */
  method InverseRound(biL: nat, b: nat, n: nat, q: array<nat>, r: array<nat>, d: array<nat>, t1: array<nat>,
                      t2: array<nat>,
      N: array<nat>, uOdd: bool, vOdd: bool, swap: bool,
      ghost x: nat, ghost y: nat, ghost xr: nat, ghost xq: nat, ghost m: nat)
    requires WordSize(biL, b) && n > 0 && Is(b, q, n, xq) && Is(b, r, n, xr) && Is(b, N, n, m) && xq < m
    requires xr < m && m % 2 == 1
    requires Fits(d, 0, n) && Fits(t1, 0, n) && Fits(t2, 0, n)
    requires q != r && q != d && q != t1 && q != t2 && r != d && r != t1 && r != t2 && d != t1 && d != t2 && t1 != t2
    requires N != q && N != r && N != d && N != t1 && N != t2
    requires (uOdd <==> x % 2 == 1) && (vOdd <==> y % 2 == 1) && (x % 2 == 1 || y % 2 == 1)
    modifies q, r, d, t1, t2
    ensures var w, h := WholeCoef(x, y, xr, xq, m), HalvedCoef(x, y, xr, xq, m);
      Is(b, r, n, if swap then h else w) && Is(b, q, n, if swap then w else h)
  {
    WordSizeBase(biL, b);
    ghost var e := SubMod(xq, xr, m);
    SubModLimbs(b, d, q, r, N, n, xq, xr, m);
    CopyValue(b, t1, d, n, e);
    Assign(b, t1, r, n, uOdd && vOdd, e, xr);
    CopyValue(b, t2, r, n, xr);
    ghost var s := if uOdd && !vOdd then xq else xr;
    Assign(b, t2, q, n, uOdd && !vOdd, xr, xq);
    Assign(b, t2, d, n, uOdd && vOdd, s, e);
    s := if uOdd && vOdd then e else s;
    Div2ModOdd(biL, b, t2, N, n, s, m);
    ghost var w, h := WholeCoef(x, y, xr, xq, m), HalvedCoef(x, y, xr, xq, m);
    assert HalfMod(s, m) == h;
    CopyValue(b, r, t1, n, w);
    CopyValue(b, q, t2, n, h);
    Swap(b, r, q, n, swap, w, h);
  }

  /** The operands x, y in u, v and, when an inverse is wanted, the coefficients xr, xq in r, q. */
  ghost predicate LoopState(b: nat, n: nat, u: array<nat>, v: array<nat>, q: array?<nat>, r: array<nat>,
      x: nat, y: nat, xr: nat, xq: nat, a: nat, m: nat)
    reads u, v, q, r
  {
    && Is(b, u, n, x) && Is(b, v, n, y) && GcdState(x, y, a, m)
    && (q != null ==> Is(b, r, n, xr) && Is(b, q, n, xq) && Coefficients(x, y, xr, xq, a, m))
  }

  /** One iteration. */
  method Iterate(biL: nat, b: nat, n: nat, u: array<nat>, v: array<nat>, q: array?<nat>, r: array<nat>,
      d: array<nat>, t1: array<nat>, t2: array<nat>, N: array<nat>,
      ghost x: nat, ghost y: nat, ghost xr: nat, ghost xq: nat, ghost a: nat, ghost m: nat)
    returns (ghost xr': nat, ghost xq': nat)
    requires WordSize(biL, b) && n > 0 && LoopState(b, n, u, v, q, r, x, y, xr, xq, a, m) && Is(b, N, n, m)
    requires m % 2 == 1
    requires Fits(d, 0, n) && Fits(t1, 0, n) && Fits(t2, 0, n)
    requires u != v && u != d && u != t1 && u != t2 && v != d && v != t1 && v != t2 && d != t1 && d != t2 && t1 != t2
    requires q != r && q != d && q != t1 && q != t2 && r != d && r != t1 && r != t2 && q != u && q != v
    requires r != u && r != v
    requires N != q && N != r && N != d && N != t1 && N != t2 && N != u && N != v
    modifies u, v, q, r, d, t1, t2
    ensures LoopState(b, n, u, v, q, r, StepU(x, y), StepV(x, y), xr', xq', a, m)
  {
    ghost var z := N[0..n];
    xr', xq' := xr, xq;
    var uOdd, vOdd, swap := GcdRound(biL, b, n, u, v, d, t1, t2, x, y);
    assert N[0..n] == z;
    if q != null {
      assert Is(b, r, n, xr) && Is(b, q, n, xq);
      InverseRound(biL, b, n, q, r, d, t1, t2, N, uOdd, vOdd, swap, x, y, xr, xq, m);
      StepKeepsCoefficients(x, y, xr, xq, a, m);
      ghost var w, h := WholeCoef(x, y, xr, xq, m), HalvedCoef(x, y, xr, xq, m);
      xr', xq' := if swap then h else w, if swap then w else h;
    }
    StepKeepsGcd(x, y, a, m);
  }

  /** G = gcd(A, N) and, when wanted, I with I * A = G modulo N, for odd N and A <= N. The
      number of iterations depends on the limb counts only. */
  method GcdModinvOdd(biL: nat, b: nat, G: array<nat>, I: array?<nat>, A: array<nat>, alimbs: nat, N: array<nat>,
                      n: nat)
    requires WordSize(biL, b) && n > 0 && Fits(G, 0, n) && Fits(A, 0, alimbs) && Limbs(b, A[0..alimbs])
    requires Fits(N, 0, n) && Limbs(b, N[0..n]) && Val(b, N[0..n]) % 2 == 1 && Val(b, A[0..alimbs]) <= Val(b, N[0..n])
    requires G != N && (I != null ==> Fits(I, 0, n) && I != N && I != G && Val(b, N[0..n]) > 1)
    modifies G, I
    ensures Limbs(b, G[0..n]) && IsGcd(Val(b, G[0..n]), old(Val(b, A[0..alimbs])), Val(b, N[0..n]))
    ensures I != null ==> Limbs(b, I[0..n]) && Val(b, I[0..n]) < Val(b, N[0..n])
    ensures I != null ==> Cong(Mul(Val(b, I[0..n]), old(Val(b, A[0..alimbs]))), Val(b, G[0..n]), Val(b, N[0..n]))
  {
    WordSizeBase(biL, b);
    ghost var a, m, z := Val(b, A[0..alimbs]), Val(b, N[0..n]), N[0..n];
    ValBound(b, z);
    var u, d, t1, t2, r := new nat[n], new nat[n], new nat[n], new nat[n], new nat[n];
    var al := if alimbs > n then n else alimbs;
    LoadOperand(b, u, n, A, alimbs, m);
    CopyValue(b, G, N, n, m);
    if I != null {
      StartCoefficients(b, I, r, n, a, m);
    }
    ghost var x, y, xr, xq := a, m, 1, 0;
    assert N[0..n] == z;
    EnoughRounds(biL, b, n, al, a, m);
    var i := 0;
    while i < (al + n) * biL
      modifies u, d, t1, t2, r, G, I
      invariant 0 <= i <= (al + n) * biL && N[0..n] == z
      invariant LoopState(b, n, u, G, I, r, x, y, xr, xq, a, m)
      invariant x == 0 || Measure(x, y) + i <= Bits(a) + Bits(m)
    {
      if x > 0 { StepShrinks(x, y); } else { StepAtZero(y); }
      xr, xq := Iterate(biL, b, n, u, G, I, r, d, t1, t2, N, x, y, xr, xq, a, m);
      assert N[0..n] == z;
      x, y := StepU(x, y), StepV(x, y);
      i := i + 1;
    }
    if x > 0 { MeasurePositive(x, y); }
    GcdAtZero(y, a, m);
  }

  lemma {:induction false} MeasurePositive(u: nat, v: nat)
    requires 0 < u <= v
    ensures Measure(u, v) > 0
  {
  }

  /** The fixed number of iterations covers the measure of the start. */
  lemma {:induction false} EnoughRounds(biL: nat, b: nat, n: nat, al: nat, a: nat, m: nat)
    requires b == Pow(2, biL) && a <= m && m % 2 == 1 && m < Pow(b, n) && a < Pow(b, al)
    ensures Measure(a, m) <= Bits(a) + Bits(m) <= (al + n) * biL
    ensures GcdState(a, m, a, m)
  {
    MeasureBound(a, m);
    PowPow(2, biL, n); PowPow(2, biL, al);
    BitsFit(a, Mul(al, biL));
    BitsFit(m, Mul(n, biL));
    MulAdd(biL, al, n);
    MulIs(al + n, biL);
  }

  /** u = A, cut to n limbs or padded with zeros. */
  method LoadOperand(b: nat, u: array<nat>, n: nat, A: array<nat>, alimbs: nat, ghost m: nat)
    requires b > 1 && Fits(u, 0, n) && u != A && Fits(A, 0, alimbs) && Limbs(b, A[0..alimbs])
    requires Val(b, A[0..alimbs]) <= m < Pow(b, n)
    modifies u
    ensures Is(b, u, n, Val(b, A[0..alimbs]))
    ensures Val(b, A[0..alimbs]) < Pow(b, if alimbs > n then n else alimbs)
  {
    ghost var s := A[0..alimbs];
    ValBound(b, s);
    var al := if alimbs > n then n else alimbs;
    Copy(u, 0, A, 0, al);
    assert u[0..al] == s[..al] && A[0..alimbs] == s;
    Clear(b, u, al, n - al);
    assert u[0..n] == s[..al] + u[al..al + (n - al)];
    ValAppend(b, s[..al], u[al..al + (n - al)]);
    LimbsAppend(b, s[..al], u[al..al + (n - al)]);
    MulUnit(Pow(b, al));
    ValSplit(b, s, al);
    if alimbs > n {
      MulLess(Pow(b, n), 1, Val(b, s[n..]));
    } else {
      assert s[..al] == s;
    }
  }

  /** q = 0 and r = 1. */
  method StartCoefficients(b: nat, q: array<nat>, r: array<nat>, n: nat, ghost a: nat, ghost m: nat)
    requires b > 1 && n > 0 && q != r && Fits(q, 0, n) && Fits(r, 0, n) && m > 1
    modifies q, r
    ensures Is(b, q, n, 0) && Is(b, r, n, 1) && Coefficients(a, m, 1, 0, a, m)
  {
    Clear(b, q, 0, n);
    Clear(b, r, 0, n);
    r[0] := 1;
    ghost var one := r[0..n];
    assert one[1..] == seq(n - 1, _ => 0);
    ValZeros(b, one[1..]);
    assert q[0..n] == seq(n, _ => 0);
    ValZeros(b, q[0..n]);
    MulUnit(b); MulUnit(a);
    CongIntro(a, a, m, 0);
    CongIntro(0, m, m, -1);
  }
}
