/** Right shift of a limb vector in place (bignum_core.c). */
module ShiftRight {
  import opened Arith
  import opened LimbVectors
  import opened BignumCore
  import opened BitLength

  /** Whole limbs: X moves down by k limbs. */
  method ShiftLimbs(b: nat, X: array<nat>, n: nat, k: nat)
    requires b > 1 && Fits(X, 0, n) && k <= n && Limbs(b, X[0..n])
    modifies X
    ensures Limbs(b, X[0..n]) && Val(b, X[0..n]) == old(Val(b, X[0..n])) / Pow(b, k)
    ensures OnlyChanged(X, 0, n)
  {
    ghost var x0 := X[0..n];
    var i := 0;
    while i < n - k
      invariant 0 <= i <= n - k && OnlyChanged(X, 0, n)
      invariant forall j :: 0 <= j < i ==> X[j] == x0[j + k]
      invariant forall j :: i <= j < n ==> X[j] == x0[j]
    {
      X[i] := X[i + k];
      i := i + 1;
    }
    while i < n
      invariant n - k <= i <= n && OnlyChanged(X, 0, n)
      invariant forall j :: 0 <= j < n - k ==> X[j] == x0[j + k]
      invariant forall j :: n - k <= j < i ==> X[j] == 0
    {
      X[i] := 0;
      i := i + 1;
    }
    assert X[0..n] == x0[k..] + seq(k, _ => 0);
    LimbsDropped(b, x0, k);
  }

  lemma {:induction false} LimbsDropped(b: nat, x: seq<nat>, k: nat)
    requires b > 0 && k <= |x| && Limbs(b, x)
    ensures Limbs(b, x[k..] + seq(k, _ => 0))
    ensures Val(b, x[k..] + seq(k, _ => 0)) == Val(b, x) / Pow(b, k)
  {
    ValAppend(b, x[k..], seq(k, _ => 0));
    ValZeros(b, seq(k, _ => 0));
    MulUnit(Pow(b, |x| - k));
    ValSplit(b, x, k);
    ValBound(b, x[..k]);
    MulIs(Pow(b, k), Val(b, x[k..]));
    DivModUnique(Val(b, x), Pow(b, k), Val(b, x[k..]), Val(b, x[..k]));
  }

  /** Taking in one more limb from below: its high bits join the remainder handed down from
      above, its low bits are handed on. */
  lemma {:induction false} ShiftStep(b: nat, h: nat, g: nat, x: nat, v: nat, v': nat, low: nat)
    requires b == Mul(h, g) && h > 0 && g > 0 && x < b && low < h && v == Mul(h, v') + low
    ensures x / h < g && x % h < h && 0 <= x / h
    ensures x * g % b == (x % h) * g
    ensures Mul(low, g) % g == 0
    ensures x / h + Mul(low, g) < b
    ensures x + Mul(b, v) == Mul(h, (x / h + Mul(low, g)) + Mul(b, v')) + x % h
  {
    MulIs(h, g); MulIs(low, g);
    var q, r := x / h, x % h;
    DivBounds(x, h);
    DivLess(x, h, g);
    DivMul(low, g);
    ShiftedUp(h, g, q, r);
    TopFits(h, g, q, low);
    ShiftIdentity(b, h, g, q, r, v', low);
    MulIs(h, q);
  }

  lemma {:induction false} ShiftedUp(h: nat, g: nat, q: nat, r: nat)
    requires h > 0 && g > 0 && r < h
    ensures h * g > 0 && (h * q + r) * g % (h * g) == r * g
  {
    MulStrict(g, r, h); MulStrict(g, 0, h);
    assert (h * q + r) * g == q * (h * g) + r * g by {
      assert (h * q + r) * g == h * q * g + r * g;
      assert h * q * g == q * (h * g);
    }
    DivModUnique((h * q + r) * g, h * g, q, r * g);
  }

  lemma {:induction false} TopFits(h: nat, g: nat, q: nat, low: nat)
    requires q < g && low < h
    ensures q + low * g < h * g
  {
    MulStrict(g, low, h);
  }

  lemma {:induction false} ShiftIdentity(b: nat, h: nat, g: nat, q: nat, r: nat, v': nat, low: nat)
    requires b == Mul(h, g)
    ensures Mul(h, q) + r + Mul(b, Mul(h, v') + low) == Mul(h, (q + Mul(low, g)) + Mul(b, v')) + r
  {
    MulAdd(b, Mul(h, v'), low);
    MulMul(b, h, v');
    MulAdd(h, q + Mul(low, g), Mul(b, v'));
    MulAdd(h, q, Mul(low, g));
    MulMul(h, low, g);
    MulComm(b, low);
  }

  /** Less than a limb: X moves down by k bits. */
  method ShiftBits(biL: nat, b: nat, X: array<nat>, n: nat, k: nat)
    requires biL > 0 && b == Pow(2, biL) && Fits(X, 0, n) && k < biL && Limbs(b, X[0..n])
    modifies X
    ensures Limbs(b, X[0..n]) && Val(b, X[0..n]) == old(Val(b, X[0..n])) / Pow(2, k)
    ensures OnlyChanged(X, 0, n)
  {
    ghost var x0 := X[0..n];
    var h, g := Pow(2, k), Pow(2, biL - k);
    PowSum(2, k, biL - k);
    ghost var low, out: seq<nat> := 0, [];
    var r0 := 0;
    var i := n;
    MulUnit(h); MulUnit(g);
    while i > 0
      invariant 0 <= i <= n && OnlyChanged(X, 0, n)
      invariant X[0..i] == x0[..i] && X[i..n] == out && Limbs(b, out)
      invariant low < h && r0 == Mul(low, g)
      invariant Val(b, x0[i..]) == Mul(h, Val(b, out)) + low
    {
      assert X[i - 1] == x0[i - 1] && x0[i - 1..][1..] == x0[i..];
      ghost var x := X[i - 1];
      ShiftStep(b, h, g, x, Val(b, x0[i..]), Val(b, out), low);
      var r1 := X[i - 1] * g % b;
      // the shifted limb lies below g and r0 is a multiple of g, so `|` is addition here
      X[i - 1] := X[i - 1] / h + r0;
      ghost var next := [X[i - 1]] + out;
      assert next[1..] == out;
      low := x % h;
      MulIs(low, g);
      r0 := r1;
      i := i - 1;
      assert X[i..n] == next && X[0..i] == x0[..i];
      out := next;
    }
    assert x0[0..] == x0;
    MulIs(h, Val(b, out));
    DivModUnique(Val(b, x0), h, Val(b, out), low);
  }

  /** X >>= count */
  method ShiftR(biL: nat, b: nat, X: array<nat>, n: nat, count: nat)
    requires biL > 0 && b == Pow(2, biL) && b > 1 && Fits(X, 0, n) && Limbs(b, X[0..n])
    modifies X
    ensures Limbs(b, X[0..n]) && Val(b, X[0..n]) == Shr(old(Val(b, X[0..n])), count)
    ensures OnlyChanged(X, 0, n)
  {
    DivBounds(count, biL);
    var v0, v1 := count / biL, count % biL;
    ghost var x := Val(b, X[0..n]);
    ValBound(b, X[0..n]);
    TwoShifts(biL, b, x, n, count, v0, v1);
    if v0 > n || (v0 == n && v1 > 0) {
      Clear(b, X, 0, n);
      return;
    }
    DivOne(x);
    if v0 > 0 {
      ShiftLimbs(b, X, n, v0);
    }
    DivOne(Val(b, X[0..n]));
    if v1 > 0 {
      ShiftBits(biL, b, X, n, v1);
    }
  }

  lemma {:induction false} DivOne(x: int)
    ensures x / 1 == x && Pow(2, 0) == 1
  {
  }

  /** Shifting by whole limbs and then by the rest is shifting by the sum; shifts past the
      vector leave nothing. */
  lemma {:induction false} TwoShifts(biL: nat, b: nat, x: nat, n: nat, count: nat, v0: nat, v1: nat)
    requires biL > 0 && b == Pow(2, biL) && x < Pow(b, n) && count == biL * v0 + v1
    ensures x / Pow(b, v0) / Pow(2, v1) == Shr(x, count)
    ensures Pow(b, 0) == 1
    ensures v0 > n || (v0 == n && v1 > 0) ==> Shr(x, count) == 0
  {
    PowPow(2, biL, v0); PowPow(2, biL, n);
    MulIs(v0, biL);
    PowAdd(2, Mul(v0, biL), v1);
    DivDiv(x, Pow(b, v0), Pow(2, v1));
    if v0 >= n {
      MulLess(biL, n, v0);
      PowMonotone(2, Mul(n, biL), count);
      ShrZero(x, count);
    }
  }
}
