/** Limb-vector primitives (bignum_core.c). A pointer is an array with an offset; every
    routine states the number its result stands for and leaves other limbs alone. */
module BignumCore {
  import opened Arith
  import opened LimbVectors
  import opened MulAddStep

  /** n limbs starting at offset o lie inside the array. */
  predicate Fits(X: array<nat>, o: nat, n: nat) {
    o + n <= X.Length
  }

  /** Limbs outside the region keep the values they had before. */
  twostate predicate OnlyChanged(X: array<nat>, o: nat, n: nat)
    reads X
  {
    forall i :: 0 <= i < X.Length && !(o <= i < o + n) ==> X[i] == old(X[i])
  }

  // ----- one limb of an addition or a subtraction

  lemma {:induction false} WrapAdd(b: nat, x: nat, y: nat)
    requires x < b && y < b
    ensures x + y == (x + y) % b + Bit((x + y) % b < y) * b
    ensures (x + y) % b < b
  {
    if x + y < b {
      DivModUnique(x + y, b, 0, x + y);
    } else {
      DivModUnique(x + y, b, 1, x + y - b);
    }
  }

  lemma {:induction false} WrapSub(b: nat, x: nat, y: nat)
    requires x < b && y < b
    ensures x + Bit(x < y) * b == y + (x - y) % b
    ensures 0 <= (x - y) % b < b
  {
    if x < y {
      DivModUnique(x - y, b, -1, x - y + b);
    } else {
      DivModUnique(x - y, b, 0, x - y);
    }
  }

  method AddLimb(b: nat, x: nat, y: nat, c: nat) returns (c': nat, t: nat)
    requires b > 1 && x < b && y < b && c <= 1
    ensures x + y + c == t + Mul(c', b)
    ensures c' <= 1 && t < b
  {
    WrapAdd(b, c, x);
    t := (c + x) % b;
    c' := Bit(t < x);
    WrapAdd(b, t, y);
    t := (t + y) % b;
    c' := c' + Bit(t < y);
  }

  method SubLimb(b: nat, x: nat, y: nat, c: nat) returns (c': nat, t: nat)
    requires b > 1 && x < b && y < b && c <= 1
    ensures x + Mul(c', b) == y + c + t
    ensures c' <= 1 && t < b
  {
    var z := Bit(x < c);
    WrapSub(b, x, c);
    t := (x - c) % b;
    c' := Bit(t < y) + z;
    WrapSub(b, t, y);
    t := (t - y) % b;
  }

  /** The carry equation of one limb, scaled to the limb's weight p. */
  lemma {:induction false} ScaleAdd(p: nat, b: nat, x: nat, y: nat, c: nat, t: nat, c': nat)
    requires x + y + c == t + Mul(c', b)
    ensures Mul(p, x) + Mul(p, y) + Mul(c, p) == Mul(p, t) + Mul(c', Mul(b, p))
  {
    MulAdd(p, x, y); MulAdd(p, x + y, c); MulAdd(p, t, Mul(c', b));
    ShiftCarry(p, b, c');
    MulComm(c, p);
  }

  lemma {:induction false} ShiftCarry(p: nat, b: nat, c: nat)
    ensures Mul(p, Mul(c, b)) == Mul(c, Mul(b, p))
  {
    MulMul(p, c, b);
    MulComm(p, b);
  }

  lemma {:induction false} PushLimb(b: nat, s: seq<nat>, t: nat)
    ensures Val(b, s + [t]) == Val(b, s) + Mul(Pow(b, |s|), t)
  {
    ValAppend(b, s, [t]);
    ValOne(b, t);
  }

  /** The carry equation of a sum, taken from the lowest i limbs to one limb more. */
  lemma {:induction false} AddPrefix(b: nat, x: seq<nat>, a: seq<nat>, sum: seq<nat>, i: nat, c: nat, t: nat, c': nat)
    requires i < |x| && i < |a| && |sum| == i && x[i] + a[i] + c == t + Mul(c', b)
    requires Val(b, sum) + Mul(c, Pow(b, i)) == Val(b, x[..i]) + Val(b, a[..i])
    ensures Val(b, sum + [t]) + Mul(c', Pow(b, i + 1)) == Val(b, x[..i + 1]) + Val(b, a[..i + 1])
  {
    PushLimb(b, sum, t);
    ValPrefix(b, x, i);
    ValPrefix(b, a, i);
    ScaleAdd(Pow(b, i), b, x[i], a[i], c, t, c');
  }

  lemma {:induction false} SubPrefix(b: nat, a: seq<nat>, y: seq<nat>, diff: seq<nat>, i: nat, c: nat, t: nat, c': nat)
    requires i < |a| && i < |y| && |diff| == i && a[i] + Mul(c', b) == y[i] + c + t
    requires Val(b, a[..i]) + Mul(c, Pow(b, i)) == Val(b, y[..i]) + Val(b, diff)
    ensures Val(b, a[..i + 1]) + Mul(c', Pow(b, i + 1)) == Val(b, y[..i + 1]) + Val(b, diff + [t])
  {
    PushLimb(b, diff, t);
    ValPrefix(b, a, i);
    ValPrefix(b, y, i);
    ScaleAdd(Pow(b, i), b, y[i], t, c, a[i], c');
  }

  function Min(x: nat, y: nat): nat { if x < y then x else y }

  /** The multiply-accumulate equation of one limb at weight p, added to that of the limbs below. */
  lemma {:induction false} ScaleMulAdd(p: nat, b: nat, s: nat, m: nat, c: nat, d: nat, c': nat, t: nat, sum: nat,
                                       vd: nat, vs: nat)
    requires Mul(c', b) + t == Mul(s, m) + c + d
    requires sum + Mul(c, p) == vd + Mul(vs, m)
    ensures sum + Mul(p, t) + Mul(c', Mul(b, p)) == vd + Mul(p, d) + Mul(vs + Mul(p, s), m)
  {
    MulAdd(p, Mul(c', b), t); MulAdd(p, Mul(s, m), c); MulAdd(p, Mul(s, m) + c, d);
    ShiftCarry(p, b, c');
    MulComm(c, p);
    MulAdd(m, vs, Mul(p, s));
    MulMul(p, s, m);
  }

  lemma {:induction false} MlaPrefix(b: nat, d: seq<nat>, s: seq<nat>, m: nat, sum: seq<nat>, i: nat, c: nat, t: nat,
                                     c': nat)
    requires i < |d| && i < |s| && |sum| == i && Mul(c', b) + t == Mul(s[i], m) + c + d[i]
    requires Val(b, sum) + Mul(c, Pow(b, i)) == Val(b, d[..i]) + Mul(Val(b, s[..i]), m)
    ensures Val(b, sum + [t]) + Mul(c', Pow(b, i + 1)) == Val(b, d[..i + 1]) + Mul(Val(b, s[..i + 1]), m)
  {
    PushLimb(b, sum, t);
    ValPrefix(b, d, i);
    ValPrefix(b, s, i);
    ScaleMulAdd(Pow(b, i), b, s[i], m, c, d[i], c', t, Val(b, sum), Val(b, d[..i]), Val(b, s[..i]));
  }

  lemma {:induction false} CarryPrefix(b: nat, d: seq<nat>, v: int, sum: seq<nat>, i: nat, c: nat, t: nat, c': nat)
    requires i < |d| && |sum| == i && d[i] + c == t + Mul(c', b)
    requires Val(b, sum) + Mul(c, Pow(b, i)) == Val(b, d[..i]) + v
    ensures Val(b, sum + [t]) + Mul(c', Pow(b, i + 1)) == Val(b, d[..i + 1]) + v
  {
    PushLimb(b, sum, t);
    ValPrefix(b, d, i);
    ScaleAdd(Pow(b, i), b, d[i], 0, c, t, c');
    MulUnit(Pow(b, i));
  }

  /** X += A if cond, returning the carry. */
  method AddIf(b: nat, X: array<nat>, xo: nat, A: array<nat>, ao: nat, n: nat, cond: bool) returns (c: nat)
    requires b > 1 && Fits(X, xo, n) && Fits(A, ao, n) && X != A
    requires Limbs(b, X[xo..xo + n]) && Limbs(b, A[ao..ao + n])
    modifies X
    ensures Limbs(b, X[xo..xo + n]) && c <= 1
    ensures Val(b, X[xo..xo + n]) + Mul(c, Pow(b, n))
         == old(Val(b, X[xo..xo + n])) + (if cond then Val(b, A[ao..ao + n]) else 0)
    ensures OnlyChanged(X, xo, n)
  {
    hide Pow;
    ghost var x0, a0, sum := X[xo..xo + n], A[ao..ao + n], [];
    ghost var addend := if cond then a0 else seq(n, _ => 0);
    c := 0;
    var i := 0;
    while i < n
      invariant 0 <= i <= n && c <= 1
      invariant OnlyChanged(X, xo, i)
      invariant X[xo..xo + i] == sum && Limbs(b, sum) && a0 == A[ao..ao + n]
      invariant Val(b, sum) + Mul(c, Pow(b, i)) == Val(b, x0[..i]) + Val(b, addend[..i])
    {
      assert X[xo + i] == x0[i] && A[ao + i] == a0[i];
      var add := if cond then A[ao + i] else 0;
      ghost var c0 := c;
      var t;
      c, t := AddLimb(b, X[xo + i], add, c);
      X[xo + i] := t;
      AddPrefix(b, x0, addend, sum, i, c0, t, c);
      sum := sum + [t];
      assert X[xo..xo + i + 1] == sum;
      i := i + 1;
    }
    assert x0[..n] == x0 && addend[..n] == addend;
    if !cond { ValZeros(b, addend); }
  }

  /** X = A - B, returning the borrow. */
  method Sub(b: nat, X: array<nat>, xo: nat, A: array<nat>, ao: nat, B: array<nat>, bo: nat, n: nat) returns (c: nat)
    requires b > 1 && Fits(X, xo, n) && Fits(A, ao, n) && Fits(B, bo, n) && X != A && X != B
    requires Limbs(b, A[ao..ao + n]) && Limbs(b, B[bo..bo + n])
    modifies X
    ensures Limbs(b, X[xo..xo + n]) && c <= 1
    ensures Val(b, A[ao..ao + n]) + Mul(c, Pow(b, n)) == Val(b, B[bo..bo + n]) + Val(b, X[xo..xo + n])
    ensures OnlyChanged(X, xo, n)
  {
    ghost var a0, b0, diff := A[ao..ao + n], B[bo..bo + n], [];
    c := 0;
    var i := 0;
    while i < n
      invariant 0 <= i <= n && c <= 1
      invariant OnlyChanged(X, xo, i)
      invariant X[xo..xo + i] == diff && Limbs(b, diff)
      invariant Val(b, a0[..i]) + Mul(c, Pow(b, i)) == Val(b, b0[..i]) + Val(b, diff)
    {
      assert A[ao + i] == a0[i] && B[bo + i] == b0[i];
      ghost var c0 := c;
      var t;
      c, t := SubLimb(b, A[ao + i], B[bo + i], c);
      X[xo + i] := t;
      SubPrefix(b, a0, b0, diff, i, c0, t, c);
      diff := diff + [t];
      assert X[xo..xo + i + 1] == diff;
      i := i + 1;
    }
    assert a0[..n] == a0 && b0[..n] == b0;
  }

  /** n multiply-accumulate steps: D += S * m on n limbs each, returning the carry. */
  method MlaRun(b: nat, D: array<nat>, dof: nat, S: array<nat>, sof: nat, n: nat, m: nat) returns (c: nat)
    requires m < b && Fits(D, dof, n) && Fits(S, sof, n) && D != S
    requires Limbs(b, D[dof..dof + n]) && Limbs(b, S[sof..sof + n])
    modifies D
    ensures Limbs(b, D[dof..dof + n]) && c < b
    ensures Val(b, D[dof..dof + n]) + Mul(c, Pow(b, n))
         == old(Val(b, D[dof..dof + n])) + Mul(Val(b, S[sof..sof + n]), m)
    ensures OnlyChanged(D, dof, n)
  {
    ghost var d0, s0, sum := D[dof..dof + n], S[sof..sof + n], [];
    c := 0;
    var i := 0;
    while i < n
      invariant 0 <= i <= n && c < b
      invariant OnlyChanged(D, dof, i)
      invariant D[dof..dof + i] == sum && Limbs(b, sum)
      invariant Val(b, sum) + Mul(c, Pow(b, i)) == Val(b, d0[..i]) + Mul(Val(b, s0[..i]), m)
    {
      assert D[dof + i] == d0[i] && S[sof + i] == s0[i];
      ghost var c0 := c;
      var t;
      c, t := MulAddDouble(b, S[sof + i], m, c, D[dof + i]);
      D[dof + i] := t;
      MlaPrefix(b, d0, s0, m, sum, i, c0, t, c);
      sum := sum + [t];
      assert D[dof..dof + i + 1] == sum;
      i := i + 1;
    }
    assert s0[..n] == s0 && d0[..n] == d0;
  }

  /** D += S * m, returning the carry: S is cut off at the length of D, and a carry past
      the end of S runs on through D. */
  method Mla(b: nat, D: array<nat>, dof: nat, dlen: nat, S: array<nat>, sof: nat, slen: nat, m: nat) returns (c: nat)
    requires m < b && Fits(D, dof, dlen) && Fits(S, sof, slen) && D != S
    requires Limbs(b, D[dof..dof + dlen]) && Limbs(b, S[sof..sof + slen])
    modifies D
    ensures Limbs(b, D[dof..dof + dlen]) && c < b
    ensures Val(b, D[dof..dof + dlen]) + Mul(c, Pow(b, dlen))
         == old(Val(b, D[dof..dof + dlen])) + Mul(Val(b, S[sof..sof + Min(dlen, slen)]), m)
    ensures OnlyChanged(D, dof, dlen)
  {
    hide Val, Pow;
    var k := Min(dlen, slen);
    ghost var d0, v := D[dof..dof + dlen], Mul(Val(b, S[sof..sof + k]), m);
    assert D[dof..dof + k] == d0[..k] && S[sof..sof + k] == S[sof..sof + slen][..k];
    c := MlaRun(b, D, dof, S, sof, k, m);
    ghost var sum := D[dof..dof + k];
    var i := k;
    while i < dlen
      invariant k <= i <= dlen && c < b
      invariant OnlyChanged(D, dof, i)
      invariant D[dof..dof + i] == sum && Limbs(b, sum)
      invariant Val(b, sum) + Mul(c, Pow(b, i)) == Val(b, d0[..i]) + v
    {
      assert D[dof + i] == d0[i];
      ghost var c0 := c;
      var t;
      c, t := AddCarry(b, 0, D[dof + i], c);
      D[dof + i] := t;
      CarryPrefix(b, d0, v, sum, i, c0, t, c);
      sum := sum + [t];
      assert D[dof..dof + i + 1] == sum;
      i := i + 1;
    }
    assert d0[..dlen] == d0;
  }

  /** Is A below B, limb by limb from the top? */
  method LtCt(b: nat, A: array<nat>, B: array<nat>, n: nat) returns (ret: bool)
    requires b > 1 && Fits(A, 0, n) && Fits(B, 0, n)
    requires Limbs(b, A[..n]) && Limbs(b, B[..n])
    ensures ret <==> Val(b, A[..n]) < Val(b, B[..n])
  {
    var done := false;
    ret := false;
    ghost var a, y := A[..n], B[..n];
    var i := n;
    while i > 0
      invariant 0 <= i <= n
      invariant done <==> Val(b, a[i..]) != Val(b, y[i..])
      invariant ret <==> Val(b, a[i..]) < Val(b, y[i..])
    {
      done := done || B[i - 1] < A[i - 1];
      ret := ret || (A[i - 1] < B[i - 1] && !done);
      done := done || A[i - 1] < B[i - 1];
      i := i - 1;
      assert a[i..][1..] == a[i + 1..] && y[i..][1..] == y[i + 1..];
      TopLimbDecides(b, a[i], Val(b, a[i + 1..]), y[i], Val(b, y[i + 1..]));
    }
    assert a[0..] == a && y[0..] == y;
  }

  lemma {:induction false} TopLimbDecides(b: nat, x: nat, p: nat, y: nat, q: nat)
    requires x < b && y < b
    ensures p < q ==> x + Mul(b, p) < y + Mul(b, q)
    ensures q < p ==> y + Mul(b, q) < x + Mul(b, p)
  {
    MulLess(b, p, q); MulLess(b, q, p);
  }

  /** X = A if assign, limb by limb. */
  method CondAssign(X: array<nat>, xo: nat, A: array<nat>, ao: nat, n: nat, assign: bool)
    requires Fits(X, xo, n) && Fits(A, ao, n) && X != A
    modifies X
    ensures X[xo..xo + n] == if assign then A[ao..ao + n] else old(X[xo..xo + n])
    ensures OnlyChanged(X, xo, n)
  {
    ghost var a0, x0 := A[ao..ao + n], X[xo..xo + n];
    var i := 0;
    while i < n
      invariant 0 <= i <= n
      invariant OnlyChanged(X, xo, i)
      invariant X[xo..xo + i] == if assign then a0[..i] else x0[..i]
    {
      assert A[ao + i] == a0[i] && X[xo + i] == x0[i];
      X[xo + i] := if assign then A[ao + i] else X[xo + i];
      i := i + 1;
      assert X[xo..xo + i] == if assign then a0[..i] else x0[..i];
    }
  }

  method CondSwap(X: array<nat>, Y: array<nat>, n: nat, swap: bool)
    requires Fits(X, 0, n) && Fits(Y, 0, n) && X != Y
    modifies X, Y
    ensures X[..n] == if swap then old(Y[..n]) else old(X[..n])
    ensures Y[..n] == if swap then old(X[..n]) else old(Y[..n])
    ensures OnlyChanged(X, 0, n) && OnlyChanged(Y, 0, n)
  {
    var i := 0;
    while i < n
      invariant 0 <= i <= n
      invariant OnlyChanged(X, 0, i) && OnlyChanged(Y, 0, i)
      invariant forall j :: 0 <= j < i ==>
                  X[j] == (if swap then old(Y[j]) else old(X[j])) && Y[j] == if swap then old(X[j]) else old(Y[j])
    {
      var tmp := X[i];
      X[i] := if swap then Y[i] else X[i];
      Y[i] := if swap then tmp else Y[i];
      i := i + 1;
    }
  }

  /** memcpy of n limbs between buffers. */
  method Copy(X: array<nat>, xo: nat, A: array<nat>, ao: nat, n: nat)
    requires Fits(X, xo, n) && Fits(A, ao, n) && X != A
    modifies X
    ensures X[xo..xo + n] == A[ao..ao + n]
    ensures OnlyChanged(X, xo, n)
  {
    forall i | 0 <= i < n { X[xo + i] := A[ao + i]; }
  }

  /** memset to zero of n limbs. */
  method Clear(b: nat, X: array<nat>, xo: nat, n: nat)
    requires b > 0 && Fits(X, xo, n)
    modifies X
    ensures forall i :: xo <= i < xo + n ==> X[i] == 0
    ensures Limbs(b, X[xo..xo + n]) && Val(b, X[xo..xo + n]) == 0
    ensures OnlyChanged(X, xo, n)
  {
    forall i | 0 <= i < n { X[xo + i] := 0; }
    ValZeros(b, X[xo..xo + n]);
  }
}
