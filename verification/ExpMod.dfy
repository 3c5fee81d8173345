/** Windowed modular exponentiation on Montgomery representatives (bignum_core.c). */
module ExpMod {
  import opened Arith
  import opened LimbVectors
  import opened BignumCore
  import opened BitLength
  import opened Montgomery

  // ----- Montgomery representatives

  /** x represents a: it is a times r modulo m, where r = b^n. */
  ghost predicate Rep(r: nat, m: nat, x: nat, a: nat)
    requires m > 0
  {
    Cong(x, Mul(a, r), m)
  }

  /** r = b^n, and the powers of two cancel modulo the odd m. */
  ghost predicate Radix(r: nat, m: nat) {
    m > 0 && m % 2 == 1 && exists e: nat :: r == Pow(2, e)
  }

  lemma {:induction false} CancelRadix(r: nat, m: nat, x: nat, y: nat)
    requires Radix(r, m) && Cong(Mul(x, r), Mul(y, r), m)
    ensures Cong(x, y, m)
  {
    var e: nat :| r == Pow(2, e);
    MulIs(x, r); MulIs(y, r);
    CongCancelPow2(x, y, e, m);
  }

  /** The Montgomery product of representatives represents the product. */
  lemma {:induction false} RepProduct(r: nat, m: nat, x: nat, u: nat, v: nat, a: nat, c: nat)
    requires Radix(r, m) && Rep(r, m, u, a) && Rep(r, m, v, c) && Cong(Mul(x, r), Mul(u, v), m)
    ensures Rep(r, m, x, Mul(a, c))
  {
    MulIs(u, v);
    CongMul(u, Mul(a, r), v, Mul(c, r), m);
    assert Mul(a, r) * Mul(c, r) == Mul(Mul(Mul(a, c), r), r) by {
      MulIs(Mul(a, r), Mul(c, r));
      MulMul(Mul(a, r), c, r);
      MulMul(c, a, r);
      MulComm(Mul(a, r), c);
      MulMul(a, c, r);
    }
    CongTrans(Mul(x, r), Mul(u, v), Mul(Mul(Mul(a, c), r), r), m);
    CancelRadix(r, m, x, Mul(Mul(a, c), r));
  }

  /** Below the modulus, a representative is determined by what it represents. */
  lemma {:induction false} RepUnique(r: nat, m: nat, x: nat, y: nat, a: nat)
    requires m > 0 && Rep(r, m, x, a) && Rep(r, m, y, a) && x < m && y < m
    ensures x == y
  {
    CongSym(y, Mul(a, r), m);
    CongTrans(x, Mul(a, r), y, m);
    CongUnique(x, y, m);
  }

  lemma {:induction false} RadixOf(biL: nat, b: nat, n: nat, N: seq<nat>)
    requires WordSize(biL, b) && |N| > 0 && N[0] % 2 == 1 && Limbs(b, N)
    ensures Radix(Pow(b, n), Val(b, N))
  {
    PowPow(2, biL, n);
    OddValue(biL, b, N);
  }

  lemma {:induction false} OddValue(biL: nat, b: nat, s: seq<nat>)
    requires WordSize(biL, b) && |s| > 0 && Limbs(b, s)
    ensures Val(b, s) % 2 == s[0] % 2
  {
    hide Val, Mul, Pow, Limbs;
    WordSizeBase(biL, b);
    ValLow(b, s);
    var v := Val(b, s[1..]);
    EvenTimes(b, v);
    SameParity(s[0], b * v);
  }

  lemma {:induction false} SameParity(x: int, even: int)
    requires even % 2 == 0
    ensures (x + even) % 2 == x % 2
  {
  }

  // ----- the table of powers

  /** Entry k of the table w holds the representative of a^k. */
  ghost predicate Entry(b: nat, w: seq<nat>, n: nat, k: nat, m: nat, a: nat)
    requires m > 0
  {
    && Mul(n, k) + n <= |w|
    && Limbs(b, w[Mul(n, k)..Mul(n, k) + n])
    && Val(b, w[Mul(n, k)..Mul(n, k) + n]) < m
    && Rep(Pow(b, n), m, Val(b, w[Mul(n, k)..Mul(n, k) + n]), Pow(a, k))
  }

  /** Writing entry i leaves the entries below it alone. */
  lemma {:induction false} EntryKept(b: nat, w: seq<nat>, w': seq<nat>, n: nat, k: nat, i: nat, m: nat, a: nat)
    requires m > 0 && Entry(b, w, n, k, m, a) && k < i && |w| == |w'|
    requires forall j :: 0 <= j < |w| && !(Mul(n, i) <= j < Mul(n, i) + n) ==> w'[j] == w[j]
    ensures Entry(b, w', n, k, m, a)
  {
    MulLess(n, k, i);
    assert w'[Mul(n, k)..Mul(n, k) + n] == w[Mul(n, k)..Mul(n, k) + n];
  }

  /** The first entries of the table are filled in. */
  ghost predicate Table(b: nat, w: seq<nat>, n: nat, count: nat, m: nat, a: nat)
    requires m > 0
  {
    forall k :: 0 <= k < count ==> Entry(b, w, n, k, m, a)
  }

  /** An entry written over w completes the table as far as i. */
  lemma {:induction false} EntryAdded(b: nat, w: seq<nat>, w': seq<nat>, n: nat, i: nat, m: nat, a: nat)
    requires m > 0 && |w| == |w'| && Table(b, w, n, i, m, a) && Entry(b, w', n, i, m, a)
    requires forall j :: 0 <= j < |w| && !(Mul(n, i) <= j < Mul(n, i) + n) ==> w'[j] == w[j]
    ensures Table(b, w', n, i + 1, m, a)
  {
    forall k | 0 <= k < i ensures Entry(b, w', n, k, m, a) {
      EntryKept(b, w, w', n, k, i, m, a);
    }
  }

  /** What the table methods ask of the modulus N and of mm. */
  ghost predicate Modulus(biL: nat, b: nat, N: array<nat>, n: nat, mm: nat)
    reads N
  {
    && WordSize(biL, b) && n > 0 && Fits(N, 0, n) && Limbs(b, N[0..n])
    && N[0] % 2 == 1 && Cong(mm * N[0], -1, b) && Val(b, N[0..n]) > 0
  }

  lemma {:induction false} ModulusFacts(biL: nat, b: nat, N: array<nat>, n: nat, mm: nat)
    requires Modulus(biL, b, N, n, mm)
    ensures b > 1 && Radix(Pow(b, n), Val(b, N[0..n]))
  {
    WordSizeBase(biL, b);
    RadixOf(biL, b, n, N[0..n]);
  }

  /** Wtable[0] = 1, Wtable[1] = A and each further entry the product of its predecessor
      with A, all in Montgomery form. */
  method PrecomputeWindow(biL: nat, b: nat, A: array<nat>, N: array<nat>, n: nat, mm: nat, RR: array<nat>,
      welem: nat, W: array<nat>, temp: array<nat>, ghost a: nat)
    requires Modulus(biL, b, N, n, mm) && welem >= 2 && Mul(n, welem) <= W.Length && temp.Length >= 2 * n + 1
    requires W != A && W != N && W != RR && temp != W && temp != A && temp != N && temp != RR
    requires Fits(A, 0, n) && Fits(RR, 0, n) && Limbs(b, A[0..n]) && Limbs(b, RR[0..n])
    requires Val(b, A[0..n]) < Val(b, N[0..n]) && Rep(Pow(b, n), Val(b, N[0..n]), Val(b, A[0..n]), a)
    requires Val(b, RR[0..n]) <= Val(b, N[0..n])
    requires Cong(Val(b, RR[0..n]), Mul(Pow(b, n), Pow(b, n)), Val(b, N[0..n]))
    modifies W, temp
    ensures Table(b, W[..], n, welem, Val(b, N[0..n]), a)
  {
    ghost var z, m := N[0..n], Val(b, N[0..n]);
    ModulusFacts(biL, b, N, n, mm);
    MulUnit(n); MulLess(n, 2, welem); MulLess(n, 1, 2);
    FirstEntry(b, N, n, mm, RR, W, temp, a);
    SecondEntry(b, A, n, W, m, a);
    var i, prev := 2, n;
    while i < welem
      invariant 2 <= i <= welem && prev == Mul(n, i - 1)
      invariant N[0..n] == z && Table(b, W[..], n, i, m, a)
    {
      MulAdd(n, i - 1, 1); MulLess(n, i, welem);
      NextEntry(biL, b, N, n, mm, i, prev, W, temp, a);
      assert N[0..n] == z;
      prev := prev + n;
      i := i + 1;
    }
  }

  /** memcpy of A over entry one. */
  method SecondEntry(b: nat, A: array<nat>, n: nat, W: array<nat>, ghost m: nat, ghost a: nat)
    requires b > 1 && n > 0 && m > 0 && Fits(A, 0, n) && Fits(W, n, n) && W != A
    requires Limbs(b, A[0..n]) && Val(b, A[0..n]) < m && Rep(Pow(b, n), m, Val(b, A[0..n]), a)
    requires Entry(b, W[..], n, 0, m, a)
    modifies W
    ensures Table(b, W[..], n, 2, m, a)
  {
    ghost var w := W[..];
    MulUnit(n);
    RepOfA(Pow(b, n), m, a, Val(b, A[0..n]));
    Copy(W, n, A, 0, n);
    assert W[..][n..n + n] == W[n..n + n];
    EntryAdded(b, w, W[..], n, 1, m, a);
  }

  /** Wcur = Wprev * W1 */
  method NextEntry(biL: nat, b: nat, N: array<nat>, n: nat, mm: nat, ghost i: nat, prev: nat, W: array<nat>,
                   temp: array<nat>, ghost a: nat)
    requires Modulus(biL, b, N, n, mm) && W != N && temp != W && temp != N && temp.Length >= 2 * n + 1
    requires i >= 2 && prev == Mul(n, i - 1) && prev + n == Mul(n, i) && Mul(n, i) + n <= W.Length
    requires Table(b, W[..], n, i, Val(b, N[0..n]), a)
    modifies W, temp
    ensures Table(b, W[..], n, i + 1, Val(b, N[0..n]), a)
  {
    ghost var w, z, r, m := W[..], N[0..n], Pow(b, n), Val(b, N[0..n]);
    ModulusFacts(biL, b, N, n, mm);
    MulUnit(n);
    assert Entry(b, w, n, i - 1, m, a) && Entry(b, w, n, 1, m, a);
    assert w[prev..prev + n] == W[prev..prev + n] && w[n..n + n] == W[n..n + n];
    ghost var u, v := Val(b, W[prev..prev + n]), Val(b, W[n..n + n]);
    var cur := prev + n;
    Montmul(b, W, cur, W, prev, W, n, n, N, n, mm, temp);
    assert N[0..n] == z;
    assert W[..][cur..cur + n] == W[cur..cur + n];
    NextPower(r, m, Val(b, W[cur..cur + n]), u, v, a, i);
    EntryAdded(b, w, W[..], n, i, m, a);
  }

  lemma {:induction false} RepOfA(r: nat, m: nat, a: nat, x: nat)
    requires m > 0 && Rep(r, m, x, a)
    ensures Rep(r, m, x, Pow(a, 1))
  {
    PowStep(a, 0);
  }

  lemma {:induction false} NextPower(r: nat, m: nat, x: nat, u: nat, v: nat, a: nat, i: nat)
    requires Radix(r, m) && i > 0 && Rep(r, m, u, Pow(a, i - 1)) && Rep(r, m, v, Pow(a, 1))
    requires Cong(Mul(x, r), Mul(u, v), m)
    ensures Rep(r, m, x, Pow(a, i))
  {
    RepProduct(r, m, x, u, v, Pow(a, i - 1), Pow(a, 1));
    PowSum(a, i - 1, 1);
  }

  /** The representative of one, as the Montgomery product of one and b^2n. */
  method FirstEntry(b: nat, N: array<nat>, n: nat, mm: nat, RR: array<nat>, W: array<nat>, temp: array<nat>,
                    ghost a: nat)
    requires b > 1 && n > 0 && Fits(W, 0, n) && temp.Length >= 2 * n + 1
    requires W != N && W != RR && temp != W && temp != N && temp != RR
    requires Fits(N, 0, n) && Fits(RR, 0, n) && Limbs(b, N[0..n]) && Limbs(b, RR[0..n])
    requires Cong(mm * N[0], -1, b) && Radix(Pow(b, n), Val(b, N[0..n]))
    requires Val(b, RR[0..n]) <= Val(b, N[0..n])
    requires Cong(Val(b, RR[0..n]), Mul(Pow(b, n), Pow(b, n)), Val(b, N[0..n]))
    modifies W, temp
    ensures Entry(b, W[..], n, 0, Val(b, N[0..n]), a)
    ensures OnlyChanged(W, 0, n)
  {
    ghost var r, z, y, m := Pow(b, n), N[0..n], RR[0..n], Val(b, N[0..n]);
    Clear(b, W, 0, n);
    W[0] := 1;
    ghost var one := W[0..n];
    assert one[1..] == seq(n - 1, _ => 0);
    ValZeros(b, one[1..]);
    MulUnit(b);
    assert N[0..n] == z && RR[0..n] == y && Val(b, one) == 1;
    Montmul(b, W, 0, W, 0, RR, 0, n, N, n, mm, temp);
    assert N[0..n] == z;
    ghost var x := Val(b, W[0..n]);
    MulUnit(Val(b, y)); MulUnit(n); MulUnit(r);
    CongTrans(Mul(x, r), Val(b, y), Mul(r, r), m);
    CancelRadix(r, m, x, r);
    assert W[..][0..n] == W[0..n];
  }

  // ----- exponent bits and windows

  /** Window width for an exponent of ebits bits, under the configured maximum. */
  function WindowSize(maxWindow: nat, ebits: nat): nat {
    if maxWindow >= 6 then
      if ebits > 671 then 6 else if ebits > 239 then 5 else if ebits > 79 then 4 else 1
    else if maxWindow == 5 then
      if ebits > 239 then 5 else if ebits > 79 then 4 else 1
    else if maxWindow > 1 then
      if ebits > 79 then maxWindow else 1
    else 1
  }

  /** Limbs the caller must provide for the table, the selected entry and the product area. */
  function WorkingLimbs(maxWindow: nat, biL: nat, n: nat, elimbs: nat): nat {
    Mul(n, Pow(2, WindowSize(maxWindow, Mul(elimbs, biL)))) + n + (2 * n + 1)
  }

  /** The three areas of a call that starts at limb index li fit in the buffer sized for
      the whole exponent. */
  lemma {:induction false} AreasFit(maxWindow: nat, biL: nat, n: nat, li: nat, elimbs: nat)
    requires li <= elimbs
    ensures Mul(n, Pow(2, WindowSize(maxWindow, Mul(li, biL)))) + n + (2 * n + 1)
         <= WorkingLimbs(maxWindow, biL, n, elimbs)
    ensures Pow(2, WindowSize(maxWindow, Mul(li, biL))) >= 2
  {
    MulLess(biL, li, elimbs);
    PowMonotone(2, WindowSize(maxWindow, Mul(li, biL)), WindowSize(maxWindow, Mul(elimbs, biL)));
    PowMonotone(2, 1, WindowSize(maxWindow, Mul(li, biL)));
    PowStep(2, 0);
    MulLess(n, Pow(2, WindowSize(maxWindow, Mul(li, biL))), Pow(2, WindowSize(maxWindow, Mul(elimbs, biL))));
  }

  /** Bit pos of the exponent is bit bi of limb li, where pos = li * biL + bi. */
  lemma {:induction false} LimbBit(biL: nat, b: nat, s: seq<nat>, li: nat, bi: nat)
    requires b == Pow(2, biL) && Limbs(b, s) && li < |s| && bi < biL
    ensures Shr(Val(b, s), Mul(li, biL) + bi) % 2 == s[li] / Pow(2, bi) % 2
  {
    var k, p := Mul(li, biL), Pow(b, li);
    var v := Val(b, s[li..]);
    PowPow(2, biL, li);
    ValSplit(b, s, li);
    ValBound(b, s[..li]);
    MulIs(p, v);
    DivModUnique(Val(b, s), p, v, Val(b, s[..li]));
    PowAdd(2, k, bi);
    DivDiv(Val(b, s), p, Pow(2, bi));
    assert s[li..][1..] == s[li + 1..];
    BitOfSum(biL, b, bi, s[li], Val(b, s[li + 1..]));
  }

  lemma {:induction false} BitOfSum(biL: nat, b: nat, bi: nat, x: nat, hi: nat)
    requires b == Pow(2, biL) && bi < biL
    ensures (x + Mul(b, hi)) / Pow(2, bi) % 2 == x / Pow(2, bi) % 2
  {
    hide *;
    var h := EvenWeight(biL, b, bi, hi);
    AddMultiple(x, Pow(2, bi), 2 * h);
    ParityOfSum(x / Pow(2, bi), h);
  }

  lemma {:induction false} EvenWeight(biL: nat, b: nat, bi: nat, hi: nat) returns (h: nat)
    requires b == Pow(2, biL) && bi < biL
    ensures Mul(b, hi) == Mul(Pow(2, bi), 2 * h)
  {
    h := Mul(Pow(2, biL - bi - 1), hi);
    PowSum(2, bi, biL - bi);
    MulMul(Pow(2, bi), Pow(2, biL - bi), hi);
    MulMul(2, Pow(2, biL - bi - 1), hi);
    MulIs(2, h);
  }

  lemma {:induction false} AddMultiple(x: nat, q: nat, k: nat)
    requires q > 0
    ensures (x + Mul(q, k)) / q == x / q + k
  {
    MulIs(q, k);
    MulDistrib(q, x / q, k);
    DivModUnique(x + q * k, q, x / q + k, x % q);
  }

  lemma {:induction false} ParityOfSum(d: int, h: int)
    ensures (d + 2 * h) % 2 == d % 2
  {
  }

  // ----- the main loop

  /** Table lookup that reads every entry and keeps the one asked for. */
  method CtUintTableLookup(S: array<nat>, W: array<nat>, n: nat, count: nat, index: nat)
    requires index < count && Mul(n, count) <= W.Length && S.Length >= n && S != W
    requires Mul(n, index) + n <= W.Length
    modifies S
    ensures S[0..n] == W[Mul(n, index)..Mul(n, index) + n]
  {
    var i, table := 0, 0;
    MulUnit(n);
    while i < count
      invariant 0 <= i <= count && table == Mul(n, i)
      invariant i > index ==> S[0..n] == W[Mul(n, index)..Mul(n, index) + n]
    {
      MulAdd(n, i, 1); MulLess(n, i, count);
      CondAssign(S, 0, W, table, n, i == index);
      table := table + n;
      i := i + 1;
    }
  }

  /** The selected table entry: copied out for a public index, scanned for otherwise. */
  method TableLookup(S: array<nat>, W: array<nat>, n: nat, welem: nat, window: nat, isPublic: bool)
    requires window < welem && Mul(n, welem) <= W.Length && S.Length >= n && S != W
    requires Mul(n, window) + n <= W.Length
    modifies S
    ensures S[0..n] == W[Mul(n, window)..Mul(n, window) + n]
  {
    if isPublic {
      var o := Mul(n, window);
      Copy(S, 0, W, o, n);
    } else {
      CtUintTableLookup(S, W, n, welem, window);
    }
  }

  /** X holds the representative of a^e. */
  ghost predicate HoldsPower(b: nat, x: seq<nat>, m: nat, a: nat, e: nat)
    requires m > 0
  {
    Limbs(b, x) && Val(b, x) < m && Rep(Pow(b, |x|), m, Val(b, x), Pow(a, e))
  }

  /** What the limbs of X end up as is determined by the base, the exponent and the modulus: the
      public and the secret scan, and all window sizes, leave the same limbs. */
  lemma {:induction false} SameLimbs(b: nat, x: seq<nat>, y: seq<nat>, m: nat, a: nat, e: nat)
    requires b > 0 && m > 0 && |x| == |y| && HoldsPower(b, x, m, a, e) && HoldsPower(b, y, m, a, e)
    ensures x == y
  {
    RepUnique(Pow(b, |x|), m, Val(b, x), Val(b, y), Pow(a, e));
    ValInjective(b, x, y);
  }

  method Square(biL: nat, b: nat, X: array<nat>, N: array<nat>, n: nat, mm: nat, temp: array<nat>, ghost a: nat,
                ghost e: nat)
    requires Modulus(biL, b, N, n, mm) && Fits(X, 0, n) && temp.Length >= 2 * n + 1
    requires X != N && temp != X && temp != N
    requires HoldsPower(b, X[0..n], Val(b, N[0..n]), a, e)
    modifies X, temp
    ensures HoldsPower(b, X[0..n], Val(b, N[0..n]), a, 2 * e)
  {
    ghost var z, r, m, u := N[0..n], Pow(b, n), Val(b, N[0..n]), Val(b, X[0..n]);
    ModulusFacts(biL, b, N, n, mm);
    Montmul(b, X, 0, X, 0, X, 0, n, N, n, mm, temp);
    assert N[0..n] == z;
    RepProduct(r, m, Val(b, X[0..n]), u, u, Pow(a, e), Pow(a, e));
    PowSum(a, e, e);
  }

  /** Multiply by the table entry of the window. */
  method MultiplyWindow(biL: nat, b: nat, X: array<nat>, N: array<nat>, n: nat, mm: nat, W: array<nat>, S: array<nat>,
      temp: array<nat>, welem: nat, window: nat, isPublic: bool, ghost a: nat, ghost e: nat)
    requires Modulus(biL, b, N, n, mm) && Fits(X, 0, n) && temp.Length >= 2 * n + 1 && S.Length >= n
    requires X != N && temp != X && temp != N && S != W && S != X && S != N && temp != S && temp != W && X != W
    requires window < welem && Mul(n, welem) <= W.Length && Table(b, W[..], n, welem, Val(b, N[0..n]), a)
    requires HoldsPower(b, X[0..n], Val(b, N[0..n]), a, e)
    modifies X, S, temp
    ensures HoldsPower(b, X[0..n], Val(b, N[0..n]), a, e + window)
  {
    ghost var z, r, m, u, x0 := N[0..n], Pow(b, n), Val(b, N[0..n]), Val(b, X[0..n]), X[0..n];
    ModulusFacts(biL, b, N, n, mm);
    assert Entry(b, W[..], n, window, m, a);
    assert W[..][Mul(n, window)..Mul(n, window) + n] == W[Mul(n, window)..Mul(n, window) + n];
    TableLookup(S, W, n, welem, window, isPublic);
    ghost var v := Val(b, S[0..n]);
    assert N[0..n] == z && X[0..n] == x0;
    Montmul(b, X, 0, X, 0, S, 0, n, N, n, mm, temp);
    assert N[0..n] == z;
    RepProduct(r, m, Val(b, X[0..n]), u, v, Pow(a, e), Pow(a, window));
    PowSum(a, e, window);
  }

  /** Where the scan of the exponent starts: just above its top bit when it is public, at
      the top of its last limb otherwise. */
  method CalcFirstBit(biL: nat, b: nat, E: array<nat>, elimbs: nat, isPublic: bool) returns (li: nat, bi: nat)
    requires biL > 0 && b == Pow(2, biL) && elimbs > 0 && Fits(E, 0, elimbs) && Limbs(b, E[..elimbs])
    ensures li <= elimbs && bi < biL && (li == elimbs ==> bi == 0) && Mul(li, biL) + bi > 0
    ensures Shr(Val(b, E[..elimbs]), Mul(li, biL) + bi) == 0
  {
    ghost var e := Val(b, E[..elimbs]);
    ValBound(b, E[..elimbs]);
    PowPow(2, biL, elimbs);
    BitsFit(e, Mul(elimbs, biL));
    MulLess(biL, 1, elimbs); MulUnit(biL);
    if isPublic {
      var bits := CoreBitlen(biL, b, E, elimbs);
      if bits == 0 { bits := 1; }
      DivBounds(bits, biL);
      li, bi := bits / biL, bits % biL;
      MulIs(li, biL); MulIs(elimbs, biL);
      assert Mul(li, biL) + bi == bits;
      if li >= elimbs { MulMonotone(biL, elimbs, li); }
      if li > elimbs { MulStrict(biL, elimbs, li); }
      BitsFit(e, bits);
      ShrZero(e, bits);
    } else {
      li, bi := elimbs, 0;
      ShrZero(e, Mul(elimbs, biL));
    }
  }

  /** Step down to the next bit of the exponent and read it. */
  method NextBit(biL: nat, b: nat, E: array<nat>, elimbs: nat, li: nat, bi: nat) returns (li': nat, bi': nat, bit: nat)
    requires biL > 0 && b == Pow(2, biL) && Fits(E, 0, elimbs) && Limbs(b, E[..elimbs])
    requires li <= elimbs && bi < biL && (li == elimbs ==> bi == 0) && Mul(li, biL) + bi > 0
    ensures li' < elimbs && bi' < biL && Mul(li', biL) + bi' + 1 == Mul(li, biL) + bi
    ensures bit < 2
    ensures Shr(Val(b, E[..elimbs]), Mul(li', biL) + bi') == 2 * Shr(Val(b, E[..elimbs]), Mul(li, biL) + bi) + bit
  {
    MulUnit(biL);
    if bi == 0 {
      MulAdd(biL, li - 1, 1);
      li', bi' := li - 1, biL - 1;
    } else {
      li', bi' := li, bi - 1;
    }
    LimbBit(biL, b, E[..elimbs], li', bi');
    ShrStep(Val(b, E[..elimbs]), Mul(li', biL) + bi');
    bit := E[li'] / Pow(2, bi') % 2;
  }

  /** X = A^E on Montgomery representatives: E is scanned from its top bit down, X squared
      at every bit and multiplied by a table entry at the end of every window. T is the
      caller's buffer of tLimbs limbs; its three areas are allocated here. */
  method ExpModOptionallySafe(biL: nat, b: nat, maxWindow: nat, X: array<nat>, A: array<nat>, N: array<nat>, n: nat,
      E: array<nat>, elimbs: nat, isPublic: bool, RR: array<nat>, tLimbs: nat, ghost a: nat)
    requires WordSize(biL, b) && n > 0 && elimbs > 0 && X != N && X != E
    requires Fits(X, 0, n) && Fits(A, 0, n) && Fits(N, 0, n) && Fits(RR, 0, n) && Fits(E, 0, elimbs)
    requires Limbs(b, A[0..n]) && Limbs(b, N[0..n]) && Limbs(b, RR[0..n]) && Limbs(b, E[..elimbs])
    requires N[0] % 2 == 1
    requires Val(b, N[0..n]) > 0
    requires Val(b, A[0..n]) < Val(b, N[0..n]) && Rep(Pow(b, n), Val(b, N[0..n]), Val(b, A[0..n]), a)
    requires Val(b, RR[0..n]) <= Val(b, N[0..n])
    requires Cong(Val(b, RR[0..n]), Mul(Pow(b, n), Pow(b, n)), Val(b, N[0..n]))
    requires tLimbs >= WorkingLimbs(maxWindow, biL, n, elimbs)
    modifies X
    ensures Limbs(b, X[0..n]) && Val(b, X[0..n]) < Val(b, N[0..n])
    ensures HoldsPower(b, X[0..n], Val(b, N[0..n]), a, Val(b, E[..elimbs]))
  {
    WordSizeBase(biL, b);
    var li, bi := CalcFirstBit(biL, b, E, elimbs, isPublic);
    var wsize := WindowSize(maxWindow, Mul(li, biL));
    var welem := Pow(2, wsize);
    AreasFit(maxWindow, biL, n, li, elimbs);
    assert Mul(n, welem) + n + (2 * n + 1) <= tLimbs;
    var W, S, temp := new nat[Mul(n, welem)], new nat[n], new nat[2 * n + 1];
    var mm := MontmulInit(biL, b, N[0]);
    ghost var z, es, m := N[0..n], E[..elimbs], Val(b, N[0..n]);
    ghost var e := Val(b, es);
    PrecomputeWindow(biL, b, A, N, n, mm, RR, welem, W, temp, a);
    assert N[0..n] == z && E[..elimbs] == es;
    assert Entry(b, W[..], n, 0, m, a);
    MulUnit(n);
    assert W[..][0..n] == W[0..n];
    Copy(X, 0, W, 0, n);
    assert N[0..n] == z && E[..elimbs] == es;
    ScanExponent(biL, b, X, N, n, mm, E, elimbs, isPublic, W, S, temp, wsize, welem, li, bi, a);
    assert N[0..n] == z && E[..elimbs] == es;
  }

  /** Where the scan stands: at limb li, bit bi, with the last bits of the exponent held
      back in the window and everything above them worked into X. */
  ghost predicate Scanned(b: nat, x: seq<nat>, m: nat, a: nat, e: nat, pos: nat, wsize: nat, window: nat, bits: nat)
    requires m > 0
  {
    && bits < wsize && window < Pow(2, bits) && window <= Shr(e, pos)
    && (pos == 0 ==> window == 0)
    && HoldsPower(b, x, m, a, Shr(e, pos) - window)
  }

  /** The buffers of the scan are in place and do not overlap. */
  ghost predicate ScanBuffers(biL: nat, b: nat, X: array<nat>, N: array<nat>, n: nat, mm: nat,
      W: array<nat>, S: array<nat>, temp: array<nat>, welem: nat, a: nat)
    reads N, W
  {
    && Modulus(biL, b, N, n, mm) && Fits(X, 0, n) && temp.Length >= 2 * n + 1 && S.Length >= n
    && X != N && temp != X && temp != N && S != W && S != X && S != N && temp != S && temp != W && X != W
    && Mul(n, welem) <= W.Length && Table(b, W[..], n, welem, Val(b, N[0..n]), a)
  }

  /** One bit: square, take the bit into the window, and at the end of a window multiply. */
  method ScanBit(biL: nat, b: nat, X: array<nat>, N: array<nat>, n: nat, mm: nat, E: array<nat>, elimbs: nat,
      isPublic: bool, W: array<nat>, S: array<nat>, temp: array<nat>, wsize: nat, welem: nat,
      li: nat, bi: nat, window: nat, bits: nat, ghost a: nat) returns (li': nat, bi': nat, window': nat, bits': nat)
    requires ScanBuffers(biL, b, X, N, n, mm, W, S, temp, welem, a) && welem == Pow(2, wsize)
    requires E != X && E != S && E != temp && Fits(E, 0, elimbs) && Limbs(b, E[..elimbs])
    requires biL > 0 && b == Pow(2, biL)
    requires li <= elimbs && bi < biL && (li == elimbs ==> bi == 0) && Mul(li, biL) + bi > 0
    requires Scanned(b, X[0..n], Val(b, N[0..n]), a, Val(b, E[..elimbs]), Mul(li, biL) + bi, wsize, window, bits)
    modifies X, S, temp
    ensures li' < elimbs && bi' < biL && Mul(li', biL) + bi' + 1 == Mul(li, biL) + bi
    ensures Scanned(b, X[0..n], Val(b, N[0..n]), a, Val(b, E[..elimbs]), Mul(li', biL) + bi', wsize, window', bits')
  {
    hide Pow, Mul, Val;
    ghost var z, es, w, m := N[0..n], E[..elimbs], W[..], Val(b, N[0..n]);
    ghost var e := Val(b, es);
    ghost var e0 := Shr(e, Mul(li, biL) + bi) - window;
    Square(biL, b, X, N, n, mm, temp, a, e0);
    assert N[0..n] == z && E[..elimbs] == es && W[..] == w;
    var bit;
    li', bi', bit := NextBit(biL, b, E, elimbs, li, bi);
    PowStep(2, bits);
    bits' := bits + 1;
    window' := 2 * window + bit;
    ghost var pos := Mul(li', biL) + bi';
    assert 2 * e0 == Shr(e, pos) - window';
    MulLess(biL, 1, li'); MulUnit(biL);
    assert bi' == 0 && li' == 0 <==> pos == 0;
    if bits' == wsize || (bi' == 0 && li' == 0) {
      PowMonotone(2, bits', wsize);
      MultiplyWindow(biL, b, X, N, n, mm, W, S, temp, welem, window', isPublic, a, 2 * e0);
      assert N[0..n] == z && E[..elimbs] == es;
      window', bits' := 0, 0;
    }
  }

  /** The bit loop. It has at least one bit to scan, so testing before the body is the
      same as testing after it. */
  method ScanExponent(biL: nat, b: nat, X: array<nat>, N: array<nat>, n: nat, mm: nat, E: array<nat>, elimbs: nat,
      isPublic: bool, W: array<nat>, S: array<nat>, temp: array<nat>, wsize: nat, welem: nat,
      li0: nat, bi0: nat, ghost a: nat)
    requires ScanBuffers(biL, b, X, N, n, mm, W, S, temp, welem, a) && wsize > 0 && welem == Pow(2, wsize)
    requires E != X && E != S && E != temp && Fits(E, 0, elimbs) && Limbs(b, E[..elimbs])
    requires biL > 0 && b == Pow(2, biL)
    requires li0 <= elimbs && bi0 < biL && (li0 == elimbs ==> bi0 == 0)
    requires Shr(Val(b, E[..elimbs]), Mul(li0, biL) + bi0) == 0
    requires HoldsPower(b, X[0..n], Val(b, N[0..n]), a, 0)
    modifies X, S, temp
    ensures HoldsPower(b, X[0..n], Val(b, N[0..n]), a, Val(b, E[..elimbs]))
  {
    ghost var z, es, w, m := N[0..n], E[..elimbs], W[..], Val(b, N[0..n]);
    var li: nat, bi: nat, window: nat, bits: nat := li0, bi0, 0, 0;
    while !(bi == 0 && li == 0)
      modifies X, S, temp
      invariant li <= elimbs && bi < biL && (li == elimbs ==> bi == 0)
      invariant N[0..n] == z && E[..elimbs] == es && W[..] == w
      invariant Scanned(b, X[0..n], m, a, Val(b, es), Mul(li, biL) + bi, wsize, window, bits)
      decreases Mul(li, biL) + bi
    {
      MulLess(biL, 1, li); MulUnit(biL);
      li, bi, window, bits := ScanBit(biL, b, X, N, n, mm, E, elimbs, isPublic, W, S, temp, wsize, welem,
                                      li, bi, window, bits, a);
      assert N[0..n] == z && E[..elimbs] == es && W[..] == w;
    }
    MulUnit(biL);
    ShrZero(Val(b, es), 0);
  }
}
