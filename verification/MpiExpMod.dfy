/** Modular exponentiation of whole numbers (bignum.c): reduction of the base, conversion to
    Montgomery form, the windowed power, and conversion back. */
module MpiExpMod {
  import opened Arith
  import opened LimbVectors
  import opened BignumCore
  import opened BitLength
  import opened Montgomery
  import opened ExpMod
  import opened MpiResult

  /** A fresh buffer of n limbs holding v. */
  method FromValue(b: nat, v: nat, n: nat) returns (X: array<nat>)
    requires b > 1 && v < Pow(b, n)
    ensures fresh(X) && X.Length == n && Limbs(b, X[0..n]) && Val(b, X[0..n]) == v
  {
    ghost var s := ToLimbs(b, v, n);
    ToLimbsValue(b, v, n);
    X := new nat[n];
    var rest: nat, i := v, 0;
    assert s[0..] == s;
    while i < n
      invariant 0 <= i <= n && X[..i] == s[..i] && ToLimbs(b, rest, n - i) == s[i..]
    {
      DivBounds(rest, b);
      X[i] := rest % b;
      assert s[i..][0] == s[i] && s[i..][1..] == s[i + 1..];
      rest := rest / b;
      i := i + 1;
      assert X[..i] == s[..i];
    }
    assert X[0..n] == s;
  }

  /** X = A in Montgomery form. */
  method ToMontRep(biL: nat, b: nat, X: array<nat>, N: array<nat>, n: nat, mm: nat, RR: array<nat>)
    requires Modulus(biL, b, N, n, mm) && Fits(X, 0, n) && Fits(RR, 0, n) && X != N && X != RR
    requires Limbs(b, X[0..n]) && Limbs(b, RR[0..n]) && Val(b, RR[0..n]) <= Val(b, N[0..n])
    requires Cong(Val(b, RR[0..n]), Mul(Pow(b, n), Pow(b, n)), Val(b, N[0..n]))
    modifies X
    ensures Limbs(b, X[0..n]) && Val(b, X[0..n]) < Val(b, N[0..n])
    ensures Rep(Pow(b, n), Val(b, N[0..n]), Val(b, X[0..n]), old(Val(b, X[0..n])))
  {
    ghost var r, z, a, m := Pow(b, n), N[0..n], Val(b, X[0..n]), Val(b, N[0..n]);
    ghost var y := Val(b, RR[0..n]);
    ModulusFacts(biL, b, N, n, mm);
    var T := new nat[2 * n + 1];
    Montmul(b, X, 0, X, 0, RR, 0, n, N, n, mm, T);
    assert N[0..n] == z;
    ghost var x := Val(b, X[0..n]);
    MulIs(a, y); MulIs(a, Mul(r, r));
    CongScale(y, Mul(r, r), a, m);
    assert y * a == a * y && Mul(r, r) * a == a * Mul(r, r);
    CongTrans(Mul(x, r), Mul(a, y), Mul(a, Mul(r, r)), m);
    MulMul(a, r, r);
    CancelRadix(r, m, x, Mul(a, r));
  }

  /** X taken out of Montgomery form: the reduced number that it represents. */
  method FromMontRep(biL: nat, b: nat, X: array<nat>, N: array<nat>, n: nat, mm: nat, ghost a: nat)
    requires Modulus(biL, b, N, n, mm) && Fits(X, 0, n) && X != N && Limbs(b, X[0..n])
    requires Rep(Pow(b, n), Val(b, N[0..n]), Val(b, X[0..n]), a)
    modifies X
    ensures Limbs(b, X[0..n]) && Val(b, X[0..n]) == a % Val(b, N[0..n])
  {
    ghost var r, z, u, m := Pow(b, n), N[0..n], Val(b, X[0..n]), Val(b, N[0..n]);
    ModulusFacts(biL, b, N, n, mm);
    var T := new nat[2 * n + 1];
    var one := new nat[1];
    one[0] := 1;
    assert one[0..1] == [1];
    ValOne(b, 1);
    Montmul(b, X, 0, X, 0, one, 0, 1, N, n, mm, T);
    assert N[0..n] == z;
    ghost var x := Val(b, X[0..n]);
    MulUnit(u);
    CongTrans(Mul(x, r), u, Mul(a, r), m);
    CancelRadix(r, m, x, a);
    CongUnique(x, a, m);
    DivModUnique(x, m, 0, x);
  }

  /** A^E modulo N for a base A >= 0, an exponent of elimbs limbs and an odd N. The two
      paths, public and secret, meet the same contract. */
  method ExpModMpi(biL: nat, b: nat, maxWindow: nat, maxBits: nat, A: nat, E: array<nat>, elimbs: nat, isPublic: bool,
      N: array<nat>, n: nat) returns (x: Result<nat>)
    requires WordSize(biL, b) && Fits(N, 0, n) && Fits(E, 0, elimbs) && Limbs(b, N[0..n]) && Limbs(b, E[..elimbs])
    ensures x.Err?
         <==> Val(b, N[0..n]) % 2 == 0 || Bits(Val(b, E[..elimbs])) > maxBits || Bits(Val(b, N[0..n])) > maxBits
    ensures x.Err? ==> x.error == BadInputData
    ensures x.Ok? && elimbs > 0 ==> x.value == Pow(A, Val(b, E[..elimbs])) % Val(b, N[0..n])
    ensures x.Ok? && elimbs == 0 ==> x.value == 1 == Pow(A, Val(b, E[..elimbs]))
  {
    if n == 0 { return Err(BadInputData); }
    ghost var z, es := N[0..n], E[..elimbs];
    ghost var m, e := Val(b, z), Val(b, es);
    OddValue(biL, b, z);
    WordSizeBase(biL, b);
    if N[0] % 2 == 0 { return Err(BadInputData); }
    assert N[..n] == z;
    var ebits := CoreBitlen(biL, b, E, elimbs);
    var nbits := CoreBitlen(biL, b, N, n);
    if ebits > maxBits || nbits > maxBits { return Err(BadInputData); }
    if elimbs == 0 { return Ok(1); }
    var modulus := Val(b, N[0..n]);
    ValBound(b, z);
    CongMod(Mul(Pow(b, n), Pow(b, n)), m);
    var RR := FromValue(b, Mul(Pow(b, n), Pow(b, n)) % modulus, n);
    var X := FromValue(b, if A >= modulus then A % modulus else A, n);
    assert N[0..n] == z && E[..elimbs] == es;
    ghost var x0 := Val(b, X[0..n]);
    assert Cong(x0, A, m) by { CongMod(A, m); CongIntro(A, A, m, 0); }
    var mm := MontmulInit(biL, b, N[0]);
    ToMontRep(biL, b, X, N, n, mm, RR);
    assert N[0..n] == z && E[..elimbs] == es;
    var tLimbs := WorkingLimbs(maxWindow, biL, n, elimbs);
    ExpModOptionallySafe(biL, b, maxWindow, X, X, N, n, E, elimbs, isPublic, RR, tLimbs, x0);
    assert N[0..n] == z && E[..elimbs] == es;
    FromMontRep(biL, b, X, N, n, mm, Pow(x0, e));
    CongPow(x0, A, e, m);
    CongUnique(Pow(x0, e), Pow(A, e), m);
    assert N[0..n] == z;
    return Ok(Val(b, X[0..n]));
  }
}
