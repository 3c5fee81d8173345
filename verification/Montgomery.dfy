/** Montgomery multiplication (bignum_core.c). */
module Montgomery {
  import opened Arith
  import opened LimbVectors
  import opened MulAddStep
  import opened BignumCore

  /** biL is a power of two, at least 8, and b is the base of limbs of biL bits. */
  ghost predicate WordSize(biL: nat, b: nat) {
    b == Pow(2, biL) && exists w: nat :: w >= 3 && biL == Pow(2, w)
  }

  lemma {:induction false} WordSizeBase(biL: nat, b: nat)
    requires WordSize(biL, b)
    ensures biL >= 8 && b >= 256 && b % 16 == 0 && b % 2 == 0
  {
    hide Mul;
    var w: nat :| w >= 3 && biL == Pow(2, w);
    assert Pow(2, 3) == 8 by { PowStep(2, 0); PowStep(2, 1); PowStep(2, 2); }
    PowMonotone(2, 3, w);
    assert Pow(2, 8) == 256 by { PowStep(2, 3); PowStep(2, 4); PowStep(2, 5); PowStep(2, 6); PowStep(2, 7); }
    PowAdd(2, 8, biL - 8);
    var q := Pow(2, biL - 8);
    assert b == 16 * (16 * q) && b == 2 * (128 * q);
  }

  /** Newton's step doubles the number of correct low bits of an inverse. */
  lemma {:induction false} NewtonStep(n: int, x: int, m: nat)
    requires m > 0 && Cong(n * x, 1, m)
    ensures m * m > 0 && Cong(n * (x * (2 - n * x)), 1, m * m)
  {
    MulStrict(m, 0, m);
    var k := CongWitness(n * x, 1, m);
    var y := n * x;
    assert n * (x * (2 - y)) == y * (2 - y) by { MulAssoc(n, x, 2 - y); }
    assert y * (2 - y) == 1 - (y - 1) * (y - 1);
    assert (y - 1) * (y - 1) == k * k * (m * m) by {
      assert (k * m) * (k * m) == k * (m * (k * m)) by { MulAssoc(k, m, k * m); }
      assert m * (k * m) == k * (m * m);
      MulAssoc(k, k, m * m);
    }
    CongIntro(n * (x * (2 - y)), 1, m * m, -(k * k));
  }

  /** The bit that the first guess adds survives the wrap of n + 2. */
  lemma {:induction false} GuessBit(b: nat, n: nat)
    requires b > 0 && b % 16 == 0
    ensures (n + 2) % b / 4 % 2 == (n % 16 + 2) / 4 % 2
  {
    GuessModulo16(b, n, 2);
    BitModulo16((n + 2) % b, n % 16 + 2);
  }

  lemma {:induction false} BitModulo16(x: int, y: int)
    requires Cong(x, y, 16)
    ensures x / 4 % 2 == y / 4 % 2
  {
    var k := CongWitness(x, y, 16);
    var q := y / 4;
    DivModUnique(x, 4, q + 4 * k, y % 4);
    DivModUnique(q + 4 * k, 2, q / 2 + 2 * k, q % 2);
  }

  lemma {:induction false} GuessTable(r: nat)
    requires r < 16 && r % 2 == 1
    ensures Cong(r * (r + 8 * ((r + 2) / 4 % 2)), 1, 16)
  {
    if r == 1 || r == 9 { assert (r + 2) / 4 % 2 == 0; }
    else if r == 3 || r == 11 { assert (r + 2) / 4 % 2 == 1; }
    else if r == 5 || r == 13 { assert (r + 2) / 4 % 2 == 1; }
    else { assert (r + 2) / 4 % 2 == 0; assert r == 7 || r == 15; }
  }

  lemma {:induction false} GuessModulo16(b: nat, n: nat, y: nat)
    requires b > 0 && b % 16 == 0
    ensures Cong((n + y) % b, n % 16 + y, 16)
  {
    CongMod(n + y, b);
    CongDivisor((n + y) % b, n + y, b, 16);
    CongIntro(n + y, n % 16 + y, 16, n / 16);
    CongTrans((n + y) % b, n + y, n % 16 + y, 16);
  }

  lemma {:induction false} OddRest(n: nat)
    requires n % 2 == 1
    ensures n % 16 < 16 && n % 16 % 2 == 1
  {
    DivModUnique(n, 2, 8 * (n / 16) + n % 16 / 2, n % 16 % 2);
  }

  lemma {:induction false} CongProduct(x: nat, r: nat, y: nat, s: nat, m: nat)
    requires m > 0 && Cong(x, r, m) && Cong(y, s, m) && Cong(r * s, 1, m)
    ensures Cong(x * y, 1, m)
  {
    CongMul(x, r, y, s, m);
    CongTrans(x * y, r * s, 1, m);
  }

  /** The first guess agrees with the inverse of n modulo 16. */
  lemma {:induction false} FirstGuess(b: nat, n: nat, t: nat, x: nat)
    requires b > 0 && b % 16 == 0 && n % 2 == 1
    requires t == (n + 2) % b / 4 % 2 && x == (n + t * 8) % b
    ensures Cong(n * x, 1, 16)
  {
    GuessBit(b, n);
    OddRest(n);
    GuessModulo16(b, n, t * 8);
    CongMod(n, 16);
    GuessTable(n % 16);
    CongProduct(n, n % 16, x, n % 16 + t * 8, 16);
  }

  /** One wrapped Newton step, for a modulus whose square divides the base. */
  lemma {:induction false} WrappedNewton(b: nat, n: nat, x: nat, m: nat)
    requires b > 0 && m > 0 && m * m > 0 && b % (m * m) == 0 && Cong(n * x, 1, m)
    ensures Cong(n * (x * ((2 - n * x % b) % b) % b), 1, m * m)
  {
    var y := n * x;
    var z := (2 - y % b) % b;
    NewtonStep(n, x, m);
    CongMod(y, b);
    CongMod(2 - y % b, b);
    CongIntro(2, 2, b, 0);
    CongAdd(2, 2, y % b, y, b);
    CongTrans(z, 2 - y % b, 2 - y, b);
    CongScale(z, 2 - y, x, b);
    CongMod(x * z, b);
    assert z * x == x * z && (2 - y) * x == x * (2 - y);
    CongTrans(x * z % b, x * z, x * (2 - y), b);
    CongScale(x * z % b, x * (2 - y), n, b);
    assert x * z % b * n == n * (x * z % b) && x * (2 - y) * n == n * (x * (2 - y));
    CongDivisor(n * (x * z % b), n * (x * (2 - y)), b, m * m);
    CongTrans(n * (x * z % b), n * (x * (2 - y)), 1, m * m);
  }

  /** One Newton step for the inverse of n, with every product and difference cut to a limb. */
  function NewtonLimb(b: nat, n: nat, x: nat): (r: nat)
    requires b > 0
    ensures r < b
  {
    x * ((2 - n * x % b) % b) % b
  }

  lemma {:induction false} NewtonSquare(b: nat, biL: nat, n: nat, x: nat, e: nat)
    requires b == Pow(2, biL) && 2 * e <= biL && Cong(n * x, 1, Pow(2, e))
    ensures Cong(n * NewtonLimb(b, n, x), 1, Pow(2, 2 * e))
  {
    var m := Pow(2, e);
    PowAdd(2, e, e);
    PowAdd(2, 2 * e, biL - 2 * e);
    DivMul(Pow(2, biL - 2 * e), m * m);
    WrappedNewton(b, n, x, m);
  }

  /** Minus the inverse of the odd limb n0 modulo the base. */
  method MontmulInit(biL: nat, b: nat, n0: nat) returns (mm: nat)
    requires WordSize(biL, b) && n0 < b && n0 % 2 == 1
    ensures mm < b && Cong(mm * n0, -1, b)
  {
    WordSizeBase(biL, b);
    ghost var w: nat :| w >= 3 && biL == Pow(2, w);
    var t := (n0 + 2) % b / 4 % 2;
    var x := (n0 + t * 8) % b;
    FirstGuess(b, n0, t, x);
    var i := biL;
    ghost var j := w;
    assert Pow(2, 2) == 4 && Pow(2, 3) == 8 && Pow(2, 4) == 16 by {
      PowStep(2, 0); PowStep(2, 1); PowStep(2, 2); PowStep(2, 3);
    }
    while i >= 8
      invariant 2 <= j <= w && i == Pow(2, j)
      invariant 0 <= x < b && Cong(n0 * x, 1, Pow(2, Pow(2, w - j + 2)))
      decreases i
    {
      if j == 2 { assert false; }
      PowStep(2, j - 1);
      PowStep(2, w - j + 2);
      PowMonotone(2, w - j + 3, w);
      NewtonSquare(b, biL, n0, x, Pow(2, w - j + 2));
      x := NewtonLimb(b, n0, x);
      i := i / 2;
      j := j - 1;
    }
    if j > 2 { PowMonotone(2, 3, j); assert false; }
    mm := NegateLimb(b, n0, x);
  }

  /** `~x + 1` */
  method NegateLimb(b: nat, ghost n0: nat, x: nat) returns (mm: nat)
    requires x < b && Cong(n0 * x, 1, b)
    ensures mm < b && Cong(mm * n0, -1, b)
  {
    mm := (b - 1 - x + 1) % b;
    CongMod(b - x, b);
    ghost var y: int := 0 - x;
    CongIntro(b - x, y, b, 1);
    CongTrans(mm, b - x, y, b);
    CongScale(mm, y, n0, b);
    CongIntro(0, 0, b, 0);
    CongAdd(0, 0, n0 * x, 1, b);
    assert y * n0 == 0 - n0 * x;
    CongTrans(mm * n0, y * n0, -1, b);
  }

  // ----- one row of the interleaved loop, over the integers

  /** The row's multiplier of N makes the lowest limb of the sum zero. */
  lemma {:induction false} RowLow(b: nat, t: nat, t0: nat, vb: nat, b0: nat, vn: nat, n0: nat, mm: nat, u0: nat,
                                  u1: nat)
    requires b > 0 && Cong(t, t0, b) && Cong(vb, b0, b) && Cong(vn, n0, b) && Cong(mm * n0, -1, b)
    requires u1 == (t0 + u0 * b0) % b * mm % b
    ensures Cong(t + Mul(vb, u0) + Mul(vn, u1), 0, b)
  {
    hide *;
    var s := t0 + u0 * b0;
    LowProduct(b, vb, b0, u0);
    CongAdd(t, t0, Mul(vb, u0), b0 * u0, b);
    LowProduct(b, vn, n0, u1);
    LowMultiplier(b, s, mm, n0, u1);
    CongTrans(Mul(vn, u1), n0 * u1, 0 - s, b);
    CongAdd(t + Mul(vb, u0), s, Mul(vn, u1), 0 - s, b);
  }

  lemma {:induction false} LowProduct(b: nat, v: nat, v0: nat, u: nat)
    requires b > 0 && Cong(v, v0, b)
    ensures Cong(Mul(v, u), v0 * u, b)
  {
    MulIs(v, u);
    CongScale(v, v0, u, b);
  }

  lemma {:induction false} LowMultiplier(b: nat, s: nat, mm: nat, n0: nat, u1: nat)
    requires b > 0 && Cong(mm * n0, -1, b) && u1 == s % b * mm % b
    ensures Cong(n0 * u1, 0 - s, b)
  {
    CongMod(s % b * mm, b);
    CongMod(s, b);
    CongScale(s % b, s, mm, b);
    CongTrans(u1, s % b * mm, s * mm, b);
    CongScale(u1, s * mm, n0, b);
    CongScale(mm * n0, -1, s, b);
    assert s * mm * n0 == mm * n0 * s && -1 * s == 0 - s && u1 * n0 == n0 * u1;
    CongTrans(n0 * u1, s * mm * n0, 0 - s, b);
  }

  /** The sum of a row stays below b times (B + N). */
  lemma {:induction false} RowBound(b: nat, t: nat, vb: nat, vn: nat, u0: nat, u1: nat)
    requires t < vb + vn && u0 < b && u1 < b
    ensures t + Mul(vb, u0) + Mul(vn, u1) < Mul(b, vb + vn)
  {
    hide *;
    MulLess(vb, u0, b - 1); MulLess(vn, u1, b - 1);
    MulAdd(vb, b - 1, 1); MulAdd(vn, b - 1, 1); MulUnit(vb); MulUnit(vn);
    MulAdd(b, vb, vn); MulComm(b, vb); MulComm(b, vn);
  }

  lemma {:induction false} RowFits(b: nat, n: nat, vb: nat, vn: nat)
    requires b > 1 && vb <= vn < Pow(b, n)
    ensures Mul(b, vb + vn) <= Pow(b, n + 2)
    ensures vb + vn < Mul(b, Pow(b, n))
  {
    var p := Pow(b, n);
    MulIs(b, p); MulIs(b, vb + vn); MulIs(b, b * p);
    MulMonotone(p, 2, b);
    MulMonotone(b, vb + vn, b * p);
  }

  /** The row keeps t * b^i equal to the used part of A times B plus a multiple of N. */
  lemma {:induction false} RowInvariant(b: nat, p: nat, t: nat, vb: nat, vn: nat, u0: nat, u1: nat, va: nat, k: nat,
                                        t': nat)
    requires Mul(b, t') == t + Mul(vb, u0) + Mul(vn, u1)
    requires Mul(t, p) == Mul(va, vb) + Mul(k, vn)
    ensures Mul(t', Mul(b, p)) == Mul(va + Mul(p, u0), vb) + Mul(k + Mul(u1, p), vn)
  {
    var x, y := Mul(vb, u0), Mul(vn, u1);
    ScaleThree(b, p, t', t, x, y);
    RotateProduct(p, vb, u0); RotateProduct(p, vn, u1);
    MulAdd(vb, va, Mul(p, u0)); MulAdd(vn, k, Mul(u1, p));
    MulComm(u1, p);
  }

  lemma {:induction false} ScaleThree(b: nat, p: nat, t': nat, t: nat, x: nat, y: nat)
    requires Mul(b, t') == t + x + y
    ensures Mul(t', Mul(b, p)) == Mul(t, p) + Mul(p, x) + Mul(p, y)
  {
    MulMul(t', b, p);
    MulComm(t', b);
    MulAdd(p, t + x, y); MulAdd(p, t, x);
    MulComm(p, t + x + y); MulComm(p, t);
  }

  lemma {:induction false} RotateProduct(p: nat, v: nat, u: nat)
    ensures Mul(p, Mul(v, u)) == Mul(Mul(p, u), v)
  {
    MulComm(v, u);
    MulMul(p, u, v);
  }

  /** One row: T += B * u0 + N * u1 over n + 2 limbs. The two carries are zero. */
  method MontmulRow(b: nat, T: array<nat>, i: nat, n: nat, B: array<nat>, bo: nat, bl: nat, N: array<nat>, u0: nat,
                    u1: nat)
    requires b > 1 && T != B && T != N && 0 < bl <= n
    requires Fits(T, i, n + 2) && Fits(B, bo, bl) && Fits(N, 0, n)
    requires Limbs(b, T[i..i + n + 2]) && Limbs(b, B[bo..bo + bl]) && Limbs(b, N[0..n])
    requires u0 < b && u1 < b
    requires Val(b, B[bo..bo + bl]) <= Val(b, N[0..n])
    requires Val(b, T[i..i + n + 2]) < Val(b, B[bo..bo + bl]) + Val(b, N[0..n])
    modifies T
    ensures Limbs(b, T[i..i + n + 2])
    ensures Val(b, T[i..i + n + 2])
         == old(Val(b, T[i..i + n + 2])) + Mul(Val(b, B[bo..bo + bl]), u0) + Mul(Val(b, N[0..n]), u1)
    ensures OnlyChanged(T, i, n + 2)
  {
    ghost var vb, vn, t := Val(b, B[bo..bo + bl]), Val(b, N[0..n]), Val(b, T[i..i + n + 2]);
    ValBound(b, N[0..n]);
    RowBound(b, t, vb, vn, u0, u1);
    RowFits(b, n, vb, vn);
    var c := Mla(b, T, i, n + 2, B, bo, bl, u0);
    NoCarry(c, Pow(b, n + 2), t + Mul(vb, u0), Val(b, T[i..i + n + 2]));
    c := Mla(b, T, i, n + 2, N, 0, n, u1);
    NoCarry(c, Pow(b, n + 2), t + Mul(vb, u0) + Mul(vn, u1), Val(b, T[i..i + n + 2]));
  }

  lemma {:induction false} NoCarry(c: nat, p: nat, sum: nat, v: nat)
    requires v + Mul(c, p) == sum && sum < p
    ensures c == 0 && v == sum
  {
    MulUnit(p);
    MulLess(p, 1, c);
  }

  /** The state between two rows: t stands in n + 1 limbs from T[i] on, the limbs above are
      untouched, and t * b^i is the product of B with the limbs of A used so far, plus k * N. */
  ghost predicate RowsDone(b: nat, T: array<nat>, n: nat, i: nat, va: nat, vb: nat, vn: nat, k: nat)
    reads T
  {
    && i <= n && T.Length >= 2 * n + 1
    && Limbs(b, T[i..i + n + 1])
    && (forall j :: i + n + 1 <= j < 2 * n + 1 ==> T[j] == 0)
    && Val(b, T[i..i + n + 1]) < vb + vn
    && Mul(Val(b, T[i..i + n + 1]), Pow(b, i)) == Mul(va, vb) + Mul(k, vn)
  }

  lemma {:induction false} WidenByZero(b: nat, s: seq<nat>, w: seq<nat>)
    requires b > 0 && w == s + [0] && Limbs(b, s)
    ensures Limbs(b, w) && Val(b, w) == Val(b, s)
  {
    PushLimb(b, s, 0);
    MulUnit(Pow(b, |s|));
  }

  /** One turn of the loop: with the multipliers of this row added in, the lowest limb is
      zero, and dropping it re-establishes the state one limb further up. */
  method MontmulTurn(b: nat, T: array<nat>, i: nat, n: nat, A: array<nat>, ao: nat, B: array<nat>, bo: nat, bl: nat,
      N: array<nat>, mm: nat, ghost k: nat) returns (ghost k': nat)
    requires b > 1 && T != A && T != B && T != N && 0 < bl <= n && i < n
    requires Fits(A, ao, n) && Fits(B, bo, bl) && Fits(N, 0, n)
    requires Limbs(b, A[ao..ao + n]) && Limbs(b, B[bo..bo + bl]) && Limbs(b, N[0..n])
    requires Cong(mm * N[0], -1, b)
    requires Val(b, B[bo..bo + bl]) <= Val(b, N[0..n])
    requires RowsDone(b, T, n, i, Val(b, A[ao..ao + n][..i]), Val(b, B[bo..bo + bl]), Val(b, N[0..n]), k)
    modifies T
    ensures RowsDone(b, T, n, i + 1, Val(b, A[ao..ao + n][..i + 1]), Val(b, B[bo..bo + bl]), Val(b, N[0..n]), k')
  {
    ghost var a, y, z := A[ao..ao + n], B[bo..bo + bl], N[0..n];
    ghost var s := T[i..i + n + 1];
    ghost var t, vb, vn := Val(b, s), Val(b, y), Val(b, z);
    assert A[ao + i] == a[i] && B[bo] == y[0] && N[0] == z[0] && T[i] == s[0];
    var u0 := A[ao + i];
    var u1 := (T[i] + u0 * B[bo]) % b * mm % b;
    WidenByZero(b, s, T[i..i + n + 2]);
    MontmulRow(b, T, i, n, B, bo, bl, N, u0, u1);
    ghost var w := T[i..i + n + 2];
    assert w[1..] == T[i + 1..i + 1 + n + 1];
    k' := k + Mul(u1, Pow(b, i));
    TurnStep(b, i, a, s, y, z, mm, u1, k, w);
  }

  lemma {:induction false} TurnStep(b: nat, i: nat, a: seq<nat>, s: seq<nat>, y: seq<nat>, z: seq<nat>, mm: nat,
                                    u1: nat, k: nat, w: seq<nat>)
    requires b > 1 && i < |a| && |s| > 0 && |y| > 0 && |z| > 0 && |w| > 0
    requires Limbs(b, a) && Limbs(b, s) && Limbs(b, y) && Limbs(b, z) && Limbs(b, w)
    requires Cong(mm * z[0], -1, b) && u1 == (s[0] + a[i] * y[0]) % b * mm % b
    requires Val(b, s) < Val(b, y) + Val(b, z)
    requires Mul(Val(b, s), Pow(b, i)) == Mul(Val(b, a[..i]), Val(b, y)) + Mul(k, Val(b, z))
    requires Val(b, w) == Val(b, s) + Mul(Val(b, y), a[i]) + Mul(Val(b, z), u1)
    ensures Limbs(b, w[1..]) && Val(b, w[1..]) < Val(b, y) + Val(b, z)
    ensures Mul(Val(b, w[1..]), Pow(b, i + 1))
         == Mul(Val(b, a[..i + 1]), Val(b, y)) + Mul(k + Mul(u1, Pow(b, i)), Val(b, z))
  {
    var t, vb, vn, t' := Val(b, s), Val(b, y), Val(b, z), Val(b, w[1..]);
    ValLow(b, s); ValLow(b, y); ValLow(b, z); ValLow(b, w);
    RowLow(b, t, s[0], vb, y[0], vn, z[0], mm, a[i], u1);
    CongUnique(Val(b, w), 0, b);
    assert w[0] == 0;
    RowBound(b, t, vb, vn, a[i], u1);
    MulLess(b, vb + vn, t');
    ValPrefix(b, a, i);
    RowInvariant(b, Pow(b, i), t, vb, vn, a[i], u1, Val(b, a[..i]), k, t');
  }

  /** The carry out of T and the borrow of T - N together tell whether N must be subtracted. */
  lemma {:induction false} FinalSelect(p: nat, t: nat, lo: nat, carry: nat, vn: nat, x: nat, borrow: nat)
    requires t == lo + Mul(p, carry) && lo + Mul(borrow, p) == vn + x
    requires lo < p && x < p && vn < p && borrow <= 1 && t < 2 * vn
    ensures carry != borrow ==> t == lo && lo < vn
    ensures carry == borrow ==> t == x + vn && x < vn
  {
    MulUnit(p);
    MulLess(p, 2, carry);
    assert Mul(p, 2) == 2 * p by { MulIs(p, 2); }
  }

  /** X = A * B / b^n modulo N, below N; X may share its buffer with A and B. */
  method Montmul(b: nat, X: array<nat>, xo: nat, A: array<nat>, ao: nat, B: array<nat>, bo: nat, bl: nat,
      N: array<nat>, n: nat, mm: nat, T: array<nat>)
    requires b > 1 && 0 < bl <= n && T.Length >= 2 * n + 1
    requires T != X && T != A && T != B && T != N && X != N
    requires Fits(X, xo, n) && Fits(A, ao, n) && Fits(B, bo, bl) && Fits(N, 0, n)
    requires Limbs(b, A[ao..ao + n]) && Limbs(b, B[bo..bo + bl]) && Limbs(b, N[0..n])
    requires Cong(mm * N[0], -1, b)
    requires Val(b, N[0..n]) > 0 && Val(b, B[bo..bo + bl]) <= Val(b, N[0..n])
    modifies X, T
    ensures Limbs(b, X[xo..xo + n]) && Val(b, X[xo..xo + n]) < Val(b, N[0..n])
    ensures Cong(Mul(Val(b, X[xo..xo + n]), Pow(b, n)),
                 Mul(old(Val(b, A[ao..ao + n])), old(Val(b, B[bo..bo + bl]))), Val(b, N[0..n]))
    ensures OnlyChanged(X, xo, n)
  {
    ghost var a, y, z := A[ao..ao + n], B[bo..bo + bl], N[0..n];
    ghost var vb, vn := Val(b, y), Val(b, z);
    Clear(b, T, 0, 2 * n + 1);
    ghost var k := 0;
    var i := 0;
    RowsStart(b, T, n, vb, vn);
    assert a[..0] == [];
    while i < n
      modifies T
      invariant 0 <= i <= n && A[ao..ao + n] == a && B[bo..bo + bl] == y && N[0..n] == z
      invariant RowsDone(b, T, n, i, Val(b, a[..i]), vb, vn, k)
    {
      k := MontmulTurn(b, T, i, n, A, ao, B, bo, bl, N, mm, k);
      i := i + 1;
    }
    assert a[..n] == a;
    MontmulFinish(b, X, xo, N, n, T, Val(b, a), vb, k);
    assert N[0..n] == z;
  }

  lemma {:induction false} RowsStart(b: nat, T: array<nat>, n: nat, vb: nat, vn: nat)
    requires b > 1 && vn > 0 && T.Length >= 2 * n + 1 && forall i :: 0 <= i < 2 * n + 1 ==> T[i] == 0
    ensures RowsDone(b, T, n, 0, 0, vb, vn, 0)
  {
    ValZeros(b, T[0..n + 1]);
    MulUnit(1); MulUnit(vb); MulUnit(vn);
  }

  /** The final subtraction of N, kept or undone. */
  method MontmulFinish(b: nat, X: array<nat>, xo: nat, N: array<nat>, n: nat, T: array<nat>, ghost va: nat,
                       ghost vb: nat, ghost k: nat)
    requires b > 1 && Fits(X, xo, n) && Fits(N, 0, n) && T != X && X != N
    requires Limbs(b, N[0..n]) && vb <= Val(b, N[0..n]) && Val(b, N[0..n]) > 0
    requires RowsDone(b, T, n, n, va, vb, Val(b, N[0..n]), k)
    modifies X
    ensures Limbs(b, X[xo..xo + n]) && Val(b, X[xo..xo + n]) < Val(b, N[0..n])
    ensures Cong(Mul(Val(b, X[xo..xo + n]), Pow(b, n)), Mul(va, vb), Val(b, N[0..n]))
    ensures OnlyChanged(X, xo, n)
  {
    ghost var w, vn, p := T[n..2 * n + 1], Val(b, N[0..n]), Pow(b, n);
    ghost var lo := T[n..n + n];
    assert w[..n] == lo && w[..n + 1] == w && w[n] == T[2 * n];
    ValPrefix(b, w, n);
    ValBound(b, lo); ValBound(b, N[0..n]);
    var carry := T[n + n];
    var borrow := Sub(b, X, xo, T, n, N, 0, n);
    ghost var x := Val(b, X[xo..xo + n]);
    ValBound(b, X[xo..xo + n]);
    FinalSelect(p, Val(b, w), Val(b, lo), carry, vn, x, borrow);
    if carry != borrow {
      Copy(X, xo, T, n, n);
    }
    ReducedOnce(p, Val(b, w), Val(b, X[xo..xo + n]), vn, va, vb, k);
  }

  lemma {:induction false} ReducedOnce(p: nat, t: nat, x: nat, vn: nat, va: nat, vb: nat, k: nat)
    requires vn > 0 && (t == x || t == x + vn) && Mul(t, p) == Mul(va, vb) + Mul(k, vn)
    ensures Cong(Mul(x, p), Mul(va, vb), vn)
  {
    var j: int := if t == x then k else k - p;
    MulAdd(p, x, vn);
    MulIs(k, vn); MulIs(vn, p);
    assert Mul(x, p) == Mul(va, vb) + j * vn by {
      if t != x { MulDistrib(vn, k, p); }
    }
    CongIntro(Mul(x, p), Mul(va, vb), vn, j);
  }
}
