/** Bit lengths of numbers and of limb vectors (bignum_core.c). */
module BitLength {
  import opened Arith
  import opened LimbVectors
  import opened BignumCore

  /** The number of bits of n, zero for zero. */
  function Bits(n: nat): nat {
    if n == 0 then 0 else 1 + Bits(n / 2)
  }

  lemma {:induction false} BitsRange(n: nat)
    ensures n < Pow(2, Bits(n))
    ensures n > 0 ==> Bits(n) > 0 && Pow(2, Bits(n) - 1) <= n
  {
    if n != 0 {
      BitsRange(n / 2);
      PowStep(2, Bits(n / 2));
      if n / 2 != 0 { PowStep(2, Bits(n / 2) - 1); }
    }
  }

  lemma {:induction false} BitsMonotone(m: nat, n: nat)
    requires m <= n
    ensures Bits(m) <= Bits(n)
  {
    if m != 0 {
      BitsMonotone(m / 2, n / 2);
    }
  }

  /** n fits in k bits exactly when it is below 2^k. */
  lemma {:induction false} BitsFit(n: nat, k: nat)
    ensures n < Pow(2, k) <==> Bits(n) <= k
  {
    BitsRange(n);
    if Bits(n) <= k { PowMonotone(2, Bits(n), k); }
    if Bits(n) > k { PowMonotone(2, k, Bits(n) - 1); }
  }

  /** n shifted right by k bits. */
  function Shr(n: nat, k: nat): (r: nat)
    ensures r == n / Pow(2, k)
  {
    DivBounds(n, Pow(2, k));
    n / Pow(2, k)
  }

  lemma {:induction false} ShrStep(n: nat, k: nat)
    ensures Shr(n, k + 1) == Shr(n, k) / 2
    ensures Shr(n, k) == 2 * Shr(n, k + 1) + Shr(n, k) % 2
  {
    PowStep(2, k);
    DivDiv(n, Pow(2, k), 2);
    assert 2 * Pow(2, k) == Pow(2, k) * 2;
  }

  lemma {:induction false} ShrZero(n: nat, k: nat)
    ensures Shr(n, 0) == n
    ensures n < Pow(2, k) ==> Shr(n, k) == 0
  {
    if n < Pow(2, k) { DivModUnique(n, Pow(2, k), 0, n); }
  }

  /** Leading zero bits of a limb, found by moving a mask down from the top bit. */
  method CoreClz(biL: nat, a: nat) returns (j: nat)
    requires biL > 0 && a < Pow(2, biL)
    ensures j <= biL && Bits(a) == biL - j
  {
    j := 0;
    var mask := Pow(2, biL - 1);
    ShrZero(a, biL);
    while j < biL
      invariant 0 <= j <= biL && (j < biL ==> mask == Pow(2, biL - 1 - j))
      invariant Shr(a, biL - j) == 0
    {
      ShrStep(a, biL - 1 - j);
      if a / mask % 2 == 1 { break; }
      assert Shr(a, biL - 1 - j) == 0;
      if j < biL - 1 { PowStep(2, biL - 2 - j); }
      mask := mask / 2;
      j := j + 1;
    }
    TopBit(a, biL, j);
  }

  lemma {:induction false} TopBit(a: nat, biL: nat, j: nat)
    requires j <= biL && Shr(a, biL - j) == 0
    requires j < biL ==> Shr(a, biL - 1 - j) % 2 == 1
    ensures Bits(a) == biL - j
  {
    var k := biL - j;
    DivBounds(a, Pow(2, k));
    assert a < Pow(2, k);
    BitsFit(a, k);
    if k > 0 {
      if a < Pow(2, k - 1) { ShrZero(a, k - 1); }
      BitsFit(a, k - 1);
    } else {
      ShrZero(a, 0);
    }
  }

  /** The bit length of a limb vector: that of its topmost nonzero limb, plus the limbs below. */
  method CoreBitlen(biL: nat, b: nat, A: array<nat>, n: nat) returns (bits: nat)
    requires biL > 0 && b == Pow(2, biL) && Fits(A, 0, n) && Limbs(b, A[..n])
    ensures bits == Bits(Val(b, A[..n]))
  {
    ghost var a := A[..n];
    var i := n;
    while i > 0
      invariant 0 <= i <= n
      invariant forall k :: i <= k < n ==> a[k] == 0
    {
      i := i - 1;
      assert A[i] == a[i];
      if A[i] != 0 {
        var clz := CoreClz(biL, A[i]);
        TopLimb(biL, b, a, i);
        return i * biL + (biL - clz);
      }
    }
    ValZeros(b, a);
    return 0;
  }

  lemma {:induction false} TopLimb(biL: nat, b: nat, a: seq<nat>, i: nat)
    requires biL > 0 && b == Pow(2, biL) && Limbs(b, a) && i < |a| && a[i] != 0
    requires forall k :: i < k < |a| ==> a[k] == 0
    ensures Bits(Val(b, a)) == i * biL + Bits(a[i])
  {
    ValSplit(b, a, i + 1);
    ValZeros(b, a[i + 1..]);
    MulUnit(Pow(b, i + 1));
    ValPrefix(b, a, i);
    ValBound(b, a[..i]);
    PowPow(2, biL, i);
    MulIs(i, biL);
    BitsOfSum(i * biL, a[i], Val(b, a[..i]));
    MulComm(Pow(b, i), a[i]);
  }

  lemma {:induction false} BitsOfSum(k: nat, x: nat, low: nat)
    requires x > 0 && low < Pow(2, k)
    ensures Bits(low + Mul(x, Pow(2, k))) == k + Bits(x)
  {
    hide *;
    var v := low + Mul(x, Pow(2, k));
    BitsRange(x);
    SumBelow(Pow(2, k), x, low, Pow(2, Bits(x)), Pow(2, Bits(x) - 1));
    PowSum(2, k, Bits(x)); PowSum(2, k, Bits(x) - 1);
    BitsFit(v, k + Bits(x));
    BitsFit(v, k + (Bits(x) - 1));
  }

  lemma {:induction false} SumBelow(p: nat, x: nat, low: nat, q: nat, r: nat)
    requires low < p && r <= x < q
    ensures Mul(p, r) <= low + Mul(x, p) < Mul(p, q)
  {
    MulLess(p, x, q);
    MulLess(p, r, x);
    MulComm(x, p);
  }
}
