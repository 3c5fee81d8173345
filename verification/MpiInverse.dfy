/** Greatest common divisors and modular inverses of whole numbers (bignum.c). */
module MpiInverse {
  import opened Arith
  import opened LimbVectors
  import opened BignumCore
  import opened BitLength
  import opened Montgomery
  import opened MpiExpMod
  import opened MpiDivision
  import opened MpiResult
  import opened GcdModinv

  // ----- common divisors

  lemma {:induction false} GcdSwap(g: nat, x: int, y: int)
    requires IsGcd(g, x, y)
    ensures IsGcd(g, y, x)
  {
  }

  lemma {:induction false} DividesAbs(d: nat, x: int)
    requires d > 0
    ensures Divides(d, x) <==> Divides(d, Abs(x))
  {
    if Divides(d, x) { DividesTimes(d, x, -1); }
    if Divides(d, Abs(x)) { DividesTimes(d, Abs(x), -1); }
  }

  lemma {:induction false} GcdAbs(g: nat, x: int, y: int)
    requires IsGcd(g, Abs(x), Abs(y))
    ensures IsGcd(g, x, y)
  {
    forall d: nat | d > 0 ensures Divides(d, g) <==> Divides(d, x) && Divides(d, y) {
      DividesAbs(d, x);
      DividesAbs(d, y);
    }
  }

  lemma {:induction false} GcdWithZero(x: nat)
    ensures IsGcd(x, 0, x)
  {
  }

  lemma {:induction false} EvenDivides(d: nat, x: int)
    requires d > 0
    ensures Divides(2 * d, 2 * x) <==> Divides(d, x)
  {
    if Divides(d, x) {
      var k := x / d;
      assert 2 * x == (2 * d) * k by { MulAssoc(2, d, k); }
      DividesIntro(2 * d, 2 * x, k);
    }
    if Divides(2 * d, 2 * x) {
      var k := 2 * x / (2 * d);
      assert 2 * x == (2 * d) * k && (2 * d) * k == 2 * (d * k) by { MulAssoc(2, d, k); }
      DividesIntro(d, x, k);
    }
  }

  /** Doubling both numbers doubles their greatest common divisor. */
  lemma {:induction false} GcdDoubleBoth(g: nat, x: int, y: int)
    requires IsGcd(g, x, y)
    ensures IsGcd(2 * g, 2 * x, 2 * y)
  {
    forall d: nat | d > 0 ensures Divides(d, 2 * g) <==> Divides(d, 2 * x) && Divides(d, 2 * y) {
      if d % 2 == 1 {
        OddDividesDouble(d, g); OddDividesDouble(d, x); OddDividesDouble(d, y);
      } else {
        var e := d / 2;
        assert d == 2 * e;
        EvenDivides(e, g); EvenDivides(e, x); EvenDivides(e, y);
      }
    }
  }

  /** With an odd number on the other side, doubling one number leaves the divisor as it is. */
  lemma {:induction false} GcdDoubleOne(g: nat, x: int, y: int)
    requires IsGcd(g, x, y) && y % 2 == 1
    ensures IsGcd(g, 2 * x, y)
  {
    forall d: nat | d > 0 ensures Divides(d, g) <==> Divides(d, 2 * x) && Divides(d, y) {
      if Divides(d, y) { OddDivisor(d, y, x); }
    }
  }

  lemma {:induction false} GcdScaleOne(g: nat, x: nat, y: nat, e: nat)
    requires IsGcd(g, x, y) && y % 2 == 1
    ensures IsGcd(g, x * Pow(2, e), y)
  {
    if e != 0 {
      GcdScaleOne(g, x, y, e - 1);
      PowStep(2, e - 1);
      assert x * Pow(2, e) == 2 * (x * Pow(2, e - 1));
      GcdDoubleOne(g, x * Pow(2, e - 1), y);
    }
  }

  lemma {:induction false} GcdScaleBoth(g: nat, x: nat, y: nat, e: nat)
    requires IsGcd(g, x, y)
    ensures IsGcd(g * Pow(2, e), x * Pow(2, e), y * Pow(2, e))
  {
    if e != 0 {
      GcdScaleBoth(g, x, y, e - 1);
      var p := Pow(2, e - 1);
      PowStep(2, e - 1);
      assert g * Pow(2, e) == 2 * (g * p) && x * Pow(2, e) == 2 * (x * p) && y * Pow(2, e) == 2 * (y * p);
      GcdDoubleBoth(g * p, x * p, y * p);
    }
  }

  /** The common power of two of two numbers goes back into the divisor of their odd parts. */
  lemma {:induction false} GcdOfOddParts(g: nat, x: nat, y: nat, zx: nat, zy: nat)
    requires IsGcd(g, x, y) && x % 2 == 1 && y % 2 == 1
    ensures IsGcd(g * Pow(2, if zx > zy then zy else zx), x * Pow(2, zx), y * Pow(2, zy))
  {
    if zx <= zy {
      GcdSwap(g, x, y);
      GcdScaleOne(g, y, x, zy - zx);
      GcdSwap(g, y * Pow(2, zy - zx), x);
      GcdScaleBoth(g, x, y * Pow(2, zy - zx), zx);
      PowAdd(2, zy - zx, zx);
      MulAssoc(y, Pow(2, zy - zx), Pow(2, zx));
    } else {
      GcdScaleOne(g, x, y, zx - zy);
      GcdScaleBoth(g, x * Pow(2, zx - zy), y, zy);
      PowAdd(2, zx - zy, zy);
      MulAssoc(x, Pow(2, zx - zy), Pow(2, zy));
    }
  }

  /** Reducing one number modulo the other keeps the common divisors. */
  lemma {:induction false} GcdReduce(g: nat, a: int, n: nat)
    requires n > 0
    ensures IsGcd(g, a % n, n) <==> IsGcd(g, a, n)
  {
    forall d: nat | d > 0 && Divides(d, n) ensures Divides(d, a % n) <==> Divides(d, a) {
      DividesTimes(d, n, a / n);
      assert a == n * (a / n) + a % n;
      DividesAddSub(d, n * (a / n), a % n);
      if Divides(d, a) { DividesAddSub(d, n * (a / n), a % n); }
    }
  }

  // ----- the wrapper of the constant-time core

  function LimbCount(biL: nat, v: nat): nat
    requires biL > 0
  {
    if v == 0 then 1 else TopIndex(biL, v) + 1
  }

  lemma {:induction false} LimbCountIs(biL: nat, b: nat, v: nat)
    requires biL > 0 && b == Pow(2, biL)
    ensures v < Pow(b, LimbCount(biL, v))
  {
    if v != 0 { TopIndexIs(biL, b, v); }
  }

  /** gcd(A, N) and, when wanted, I with I * A = gcd(A, N) modulo N, for 0 <= A <= N, N odd. */
  method GcdModinvOddMpi(biL: nat, b: nat, wantI: bool, A: int, N: int) returns (res: Result<(nat, nat)>)
    requires WordSize(biL, b)
    ensures res.Err? <==> A < 0 || A > N || N % 2 == 0 || (wantI && N == 1)
    ensures res.Err? ==> res.error == BadInputData
    ensures res.Ok? ==> IsGcd(res.value.0, A, N)
    ensures res.Ok? && wantI ==> res.value.1 < N && Cong(res.value.1 * A, res.value.0, N)
  {
    if A < 0 || A > N || N % 2 != 1 || (wantI && N == 1) { return Err(BadInputData); }
    WordSizeBase(biL, b);
    var n, al := LimbCount(biL, N), LimbCount(biL, A);
    LimbCountIs(biL, b, N);
    LimbCountIs(biL, b, A);
    var np := FromValue(b, N, n);
    var ap := FromValue(b, A, al);
    var G := new nat[n];
    if wantI {
      var I := new nat[n];
      GcdModinvOdd(biL, b, G, I, ap, al, np, n);
      MulIs(Val(b, I[0..n]), A);
      return Ok((Val(b, G[0..n]), Val(b, I[0..n])));
    } else {
      GcdModinvOdd(biL, b, G, null, ap, al, np, n);
      return Ok((Val(b, G[0..n]), 0));
    }
  }

  // ----- greatest common divisor

  /** The number of trailing zero bits of a positive number, and what is left without them. */
  method Lsb(v: nat) returns (z: nat, odd: nat)
    requires v > 0
    ensures odd % 2 == 1 && v == odd * Pow(2, z)
  {
    z, odd := 0, v;
    while odd % 2 == 0
      invariant v == odd * Pow(2, z) && odd > 0
      decreases odd
    {
      PowStep(2, z);
      assert odd / 2 * (2 * Pow(2, z)) == odd / 2 * 2 * Pow(2, z) by { MulAssoc(odd / 2, 2, Pow(2, z)); }
      odd, z := odd / 2, z + 1;
    }
  }

  /** The greatest common divisor of any two integers. */
  method GcdMpi(biL: nat, b: nat, A: int, B: int) returns (G: nat)
    requires WordSize(biL, b)
    ensures IsGcd(G, A, B)
  {
    var ta, tb := Abs(A), Abs(B);
    if ta == 0 {
      GcdWithZero(tb);
      GcdAbs(tb, A, B);
      return tb;
    }
    if tb == 0 {
      GcdWithZero(ta);
      GcdSwap(ta, 0, ta);
      GcdAbs(ta, A, B);
      return ta;
    }
    var za, oa := Lsb(ta);
    var zb, ob := Lsb(tb);
    var g := OddGcd(biL, b, oa, ob);
    GcdOfOddParts(g, oa, ob, za, zb);
    G := g * Pow(2, if za > zb then zb else za);
    GcdAbs(G, A, B);
  }

  /** Of two odd numbers, the smaller one goes first. */
  method OddGcd(biL: nat, b: nat, oa: nat, ob: nat) returns (g: nat)
    requires WordSize(biL, b) && oa % 2 == 1 && ob % 2 == 1
    ensures IsGcd(g, oa, ob)
  {
    var x, y := oa, ob;
    if y < x {
      x, y := y, x;
    }
    var r := GcdModinvOddMpi(biL, b, false, x, y);
    g := r.value.0;
  }

  // ----- modular inverse

  ghost predicate Coprime(a: int, n: int) { IsGcd(1, a, n) }

  /** x is the inverse of a modulo n. */
  ghost predicate IsInverse(x: nat, a: int, n: nat) {
    n > 0 && x < n && Cong(a * x, 1, n)
  }

  /** The inverse is unique. */
  lemma {:induction false} InverseUnique(x: nat, y: nat, a: int, n: nat)
    requires IsInverse(x, a, n) && IsInverse(y, a, n)
    ensures x == y
  {
    CongScale(a * x, 1, y, n);
    CongScale(a * y, 1, x, n);
    assert a * x * y == a * y * x by { MulAssoc(a, x, y); MulAssoc(a, y, x); }
    CongSym(a * x * y, 1 * y, n);
    CongTrans(y, a * x * y, x, n);
    CongUnique(y, x, n);
  }

  lemma {:induction false} ReducedInverse(x: nat, a: int, n: nat)
    requires n > 1 && x < n && Cong(x * (a % n), 1, n)
    ensures IsInverse(x, a, n)
  {
    var r := a % n;
    CongMod(a, n);
    CongScale(a, r, x, n);
    assert r * x == x * r;
    CongTrans(a * x, r * x, 1, n);
  }

  method InvModOdd(biL: nat, b: nat, A: int, N: nat) returns (res: Result<nat>)
    requires WordSize(biL, b) && N > 1 && N % 2 == 1
    ensures res.Ok? <==> Coprime(A, N)
    ensures res.Ok? ==> IsInverse(res.value, A, N)
    ensures res.Err? ==> res.error == NotAcceptable
  {
    var T := Residue(biL, b, A, N);
    var r := GcdModinvOddMpi(biL, b, true, T, N);
    GcdReduce(r.value.0, A, N);
    GcdReduce(1, A, N);
    if r.value.0 != 1 {
      if Coprime(A, N) { GcdUnique(r.value.0, 1, A, N); }
      return Err(NotAcceptable);
    }
    ReducedInverse(r.value.1, A, N);
    return Ok(r.value.1);
  }

  method Residue(biL: nat, b: nat, A: int, N: nat) returns (r: nat)
    requires WordSize(biL, b) && N > 0
    ensures r == A % N && r < N
  {
    WordSizeBase(biL, b);
    EvenWord(biL);
    LimbCountIs(biL, b, Abs(A));
    var m := ModMpi(biL / 2, b, LimbCount(biL, Abs(A)), A, N);
    r := m.value;
  }

  lemma {:induction false} EvenWord(biL: nat)
    requires WordSize(biL, Pow(2, biL))
    ensures biL == 2 * (biL / 2) && biL / 2 > 0
  {
    var w: nat :| w >= 3 && biL == Pow(2, w);
    PowStep(2, w - 1);
  }

  /** From the inverse i of n modulo a: a divides i n - 1, and n minus the quotient is the
      inverse of a modulo n. */
  lemma {:induction false} OtherWay(i: nat, a: nat, n: nat, k: int)
    requires 1 < a < n && i < a && i * n - 1 == k * a
    ensures 0 < k < n && IsInverse(n - k, a, n)
  {
    if i == 0 {
      assert k * a == -1;
      if k >= 0 { MulMonotone(a, 0, k); } else { MulMonotone(a, k, -1); }
      assert false;
    }
    MulMonotone(n, 1, i);
    if k <= 0 { MulMonotone(a, k, 0); }
    MulMonotone(n, i, a - 1);
    MulDistrib(n, a, -1);
    if k >= n { MulMonotone(a, n, k); }
    MulDistrib(a, n, k);
    MulDistrib(n, a, i);
    assert a * (n - k) == 1 + (a - i) * n;
    CongIntro(a * (n - k), 1, n, a - i);
  }

  /** The inverse of A modulo N through the inverse of N modulo A, which must be odd. */
  method InvModEvenInRange(biL: nat, b: nat, A: nat, N: nat) returns (res: Result<nat>)
    requires WordSize(biL, b) && 1 < A < N
    ensures res.Ok? <==> A % 2 == 1 && Coprime(A, N)
    ensures res.Ok? ==> IsInverse(res.value, A, N)
    ensures res.Err? && A % 2 == 1 ==> res.error == NotAcceptable
  {
    var I := Residue(biL, b, N, A);
    var r := GcdModinvOddMpi(biL, b, true, I, A);
    if r.Err? { return Err(r.error); }
    GcdReduce(r.value.0, N, A);
    GcdSwap(r.value.0, N, A);
    if r.value.0 != 1 {
      if Coprime(A, N) { GcdUnique(r.value.0, 1, A, N); }
      return Err(NotAcceptable);
    }
    ReducedInverse(r.value.1, N, A);
    var X := FinishEven(biL, b, r.value.1, A, N);
    return Ok(X);
  }

  method FinishEven(biL: nat, b: nat, I: nat, A: nat, N: nat) returns (X: nat)
    requires WordSize(biL, b) && 1 < A < N && IsInverse(I, N, A)
    ensures IsInverse(X, A, N)
  {
    WordSizeBase(biL, b);
    EvenWord(biL);
    ghost var k := CongWitness(N * I, 1, A);
    OtherWay(I, A, N, k);
    var J := I * N - 1;
    LimbCountIs(biL, b, Abs(J));
    var d := DivMpi(biL / 2, b, LimbCount(biL, Abs(J)), J, A);
    DividedUnique(J, A, d.value.0, d.value.1, k, 0);
    X := N - d.value.0;
  }

  method InvModEven(biL: nat, b: nat, A: int, N: nat) returns (res: Result<nat>)
    requires WordSize(biL, b) && N > 1
    ensures res.Ok? <==> Coprime(A, N) && A % N % 2 == 1
    ensures res.Ok? ==> IsInverse(res.value, A, N)
    ensures res.Err? && (A % N % 2 == 1 || A % N == 0) ==> res.error == NotAcceptable
  {
    var AA := Residue(biL, b, A, N);
    GcdReduce(1, A, N);
    if AA < 1 {
      return Err(NotAcceptable);
    }
    if AA == 1 {
      OneCoprime(N);
      CongIntro(1, 1, N, 0);
      ReducedInverse(1, A, N);
      return Ok(1);
    }
    res := InvModEvenInRange(biL, b, AA, N);
    if res.Ok? {
      assert res.value * AA == AA * res.value;
      ReducedInverse(res.value, A, N);
    }
  }

  lemma {:induction false} OneCoprime(n: int)
    ensures Coprime(1, n)
  {
    forall d: nat | d > 0 && Divides(d, 1) ensures Divides(d, n) {
      DividesLe(d, 1);
      assert d == 1;
    }
  }

  lemma {:induction false} BothEven(a: int, n: int)
    requires a % 2 == 0 && n % 2 == 0
    ensures !Coprime(a, n)
  {
    assert Divides(2, a) && Divides(2, n) && !Divides(2, 1);
  }

  lemma {:induction false} ResidueParity(a: int, n: nat)
    requires n > 0 && n % 2 == 0
    ensures a % n % 2 == a % 2
  {
    CongMod(a, n);
    CongDivisor(a % n, a, n, 2);
    CongUnique(a % n, a, 2);
  }

  /** The inverse of A modulo N exists exactly when the two are coprime, and is then found. */
  method InvMod(biL: nat, b: nat, A: int, N: int) returns (res: Result<nat>)
    requires WordSize(biL, b)
    ensures N <= 1 ==> res == Err(BadInputData)
    ensures N > 1 ==> (res.Ok? <==> Coprime(A, N))
    ensures N > 1 && res.Ok? ==> IsInverse(res.value, A, N)
    ensures N > 1 && res.Err? ==> res.error == NotAcceptable
  {
    if N <= 1 { return Err(BadInputData); }
    if N % 2 == 1 {
      res := InvModOdd(biL, b, A, N);
    } else if A % 2 == 1 {
      ResidueParity(A, N);
      res := InvModEven(biL, b, A, N);
    } else {
      BothEven(A, N);
      res := Err(NotAcceptable);
    }
  }
}
