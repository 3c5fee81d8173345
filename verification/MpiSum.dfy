/** Sums and differences of multi-precision numbers on their limbs, grown and overwritten in
    place; the result may be one of the operands (bignum.c). */
module MpiSum {
  import opened Arith
  import opened LimbVectors
  import opened BignumCore
  import opened MulAddStep
  import opened MpiResult

  datatype Status = Fine | Failed(error: Error)

  function Zeros(k: nat): (r: seq<nat>)
    ensures |r| == k && forall i :: 0 <= i < k ==> r[i] == 0
  {
    seq(k, _ => 0)
  }

  function Signed(s: int, v: int): int { if s < 0 then -v else v }

  /** A sign, 1 or -1, and limbs, lowest first, of which the top ones may be zero. */
  class Mpi {
    var s: int
    var p: seq<nat>

    constructor (s: int, p: seq<nat>)
      ensures this.s == s && this.p == p
    {
      this.s, this.p := s, p;
    }

    ghost predicate Valid(b: nat)
      reads this
    {
      b > 1 && (s == 1 || s == -1) && Limbs(b, p)
    }

    ghost function Abs(b: nat): nat
      reads this
    {
      Val(b, p)
    }

    /** The number that is represented. */
    ghost function Value(b: nat): int
      reads this
    {
      Signed(s, Val(b, p))
    }
  }

  // ----- leading zero limbs

  /** The number of limbs up to the top one that is not zero. */
  method Significant(p: seq<nat>) returns (n: nat)
    ensures n <= |p| && (forall i :: n <= i < |p| ==> p[i] == 0) && (n > 0 ==> p[n - 1] != 0)
  {
    n := |p|;
    while n > 0
      invariant n <= |p| && forall i :: n <= i < |p| ==> p[i] == 0
    {
      if p[n - 1] != 0 { return; }
      n := n - 1;
    }
  }

  lemma {:induction false} ValTrim(b: nat, p: seq<nat>, n: nat)
    requires n <= |p| && forall i :: n <= i < |p| ==> p[i] == 0
    ensures Val(b, p) == Val(b, p[..n])
  {
    hide Val;
    ValSplit(b, p, n);
    ValZeros(b, p[n..]);
    MulIs(Pow(b, n), 0);
  }

  lemma {:induction false} ValGrown(b: nat, p: seq<nat>, k: nat)
    requires b > 0
    ensures Val(b, p + Zeros(k)) == Val(b, p) && (Limbs(b, p) ==> Limbs(b, p + Zeros(k)))
  {
    hide Val;
    var q := p + Zeros(k);
    ValTrim(b, q, |p|);
    assert q[..|p|] == p;
  }

  lemma {:induction false} ValTop(b: nat, p: seq<nat>, n: nat)
    requires 0 < n <= |p| && p[n - 1] != 0
    ensures Val(b, p) >= Pow(b, n - 1)
  {
    hide Val, Pow, Mul;
    var w := Pow(b, n - 1);
    ValSplit(b, p, n - 1);
    var q := p[n - 1..];
    assert q[0] == p[n - 1];
    ValAtLeast(b, q);
    MulLess(w, 1, Val(b, q));
    MulUnit(w);
  }

  lemma {:induction false} ValAtLeast(b: nat, q: seq<nat>)
    requires q != [] && q[0] > 0
    ensures Val(b, q) > 0
  {
  }

  /** More limbs, if there are not enough. */
  method Grow(b: nat, X: Mpi, n: nat)
    requires X.Valid(b)
    modifies X`p
    ensures X.Valid(b) && X.Abs(b) == old(X.Abs(b))
    ensures X.p == old(X.p) + Zeros(if n > |old(X.p)| then n - |old(X.p)| else 0)
  {
    ValGrown(b, X.p, if n > |X.p| then n - |X.p| else 0);
    if |X.p| < n {
      X.p := X.p + Zeros(n - |X.p|);
    } else {
      assert X.p + Zeros(0) == X.p;
    }
  }

  /** Copy limbs and sign. */
  method Copy(b: nat, X: Mpi, Y: Mpi)
    requires X.Valid(b) && Y.Valid(b)
    modifies X
    ensures X.Valid(b) && X.Abs(b) == old(Y.Abs(b)) && (Y.p != [] ==> X.s == old(Y.s))
  {
    if X == Y { return; }
    if |Y.p| == 0 {
      if |X.p| != 0 {
        X.s := 1;
        X.p := Zeros(|X.p|);
      }
      ValZeros(b, X.p);
      ValZeros(b, Y.p);
      return;
    }
    var i := Significant(Y.p);
    if i == 0 { i := 1; }
    ValTrim(b, Y.p, i);
    X.s := Y.s;
    if |X.p| < i {
      Grow(b, X, i);
    } else {
      X.p := X.p[..i] + Zeros(|X.p| - i);
    }
    X.p := Y.p[..i] + X.p[i..];
    assert X.p[..i] == Y.p[..i];
    ValTrim(b, X.p, i);
  }

  // ----- sums

  /** The lowest n limbs of Y added to those of X, returning the carry. */
  method CoreAdd(b: nat, X: Mpi, Y: Mpi, n: nat) returns (c: nat)
    requires X.Valid(b) && Y.Valid(b) && n <= |X.p| && n <= |Y.p|
    modifies X`p
    ensures X.Valid(b) && c <= 1 && |X.p| == |old(X.p)| && X.p[n..] == old(X.p)[n..]
    ensures Val(b, X.p[..n]) + Mul(c, Pow(b, n)) == Val(b, old(X.p)[..n]) + Val(b, old(Y.p)[..n])
  {
    hide Val, Pow;
    ghost var x0, y0, sum := X.p, Y.p, [];
    c := 0;
    var i := 0;
    assert Val(b, []) == Val(b, x0[..0]) && Val(b, []) == Val(b, y0[..0]) by {
      ValNone(b); assert x0[..0] == [] && y0[..0] == [];
    }
    ValNone(b);
    MulUnit(Pow(b, 0));
    while i < n
      invariant 0 <= i <= n && c <= 1 && |X.p| == |x0|
      invariant X.p[..i] == sum && X.p[i..] == x0[i..] && Y.p[i..] == y0[i..] && Limbs(b, sum)
      invariant Val(b, sum) + Mul(c, Pow(b, i)) == Val(b, x0[..i]) + Val(b, y0[..i])
    {
      c, sum := AddOne(b, X, Y, i, c, x0, y0, sum);
      i := i + 1;
    }
    assert X.p == sum + x0[n..];
  }

  lemma {:induction false} ValNone(b: nat)
    ensures Val(b, []) == 0
  {
  }

  /** One limb of the sum. */
  method AddOne(b: nat, X: Mpi, Y: Mpi, i: nat, c: nat, ghost x0: seq<nat>, ghost y0: seq<nat>, ghost sum: seq<nat>)
    returns (c': nat, ghost sum': seq<nat>)
    requires b > 1 && Limbs(b, x0) && Limbs(b, y0) && Limbs(b, sum) && c <= 1
    requires i < |X.p| == |x0| && i < |Y.p| && |Y.p| == |y0|
    requires X.p[..i] == sum && X.p[i..] == x0[i..] && Y.p[i..] == y0[i..]
    requires Val(b, sum) + Mul(c, Pow(b, i)) == Val(b, x0[..i]) + Val(b, y0[..i])
    modifies X`p
    ensures c' <= 1 && |X.p| == |x0| && Limbs(b, sum') && |Y.p| == |y0|
    ensures X.p[..i + 1] == sum' && X.p[i + 1..] == x0[i + 1..] && Y.p[i + 1..] == y0[i + 1..]
    ensures Val(b, sum') + Mul(c', Pow(b, i + 1)) == Val(b, x0[..i + 1]) + Val(b, y0[..i + 1])
  {
    hide Val, Pow, Mul;
    assert X.p[i] == X.p[i..][0] == x0[i] && Y.p[i] == Y.p[i..][0] == y0[i];
    var t;
    c', t := AddLimb(b, X.p[i], Y.p[i], c);
    AddPrefix(b, x0, y0, sum, i, c, t, c');
    Moved(X.p, x0, i, t);
    Moved(Y.p, y0, i, t);
    X.p := X.p[i := t];
    sum' := sum + [t];
  }

  /** Writing limb i leaves the limbs above it alone. */
  lemma {:induction false} Moved(p: seq<nat>, q: seq<nat>, i: nat, t: nat)
    requires i < |p| == |q| && p[i..] == q[i..]
    ensures p[i := t][..i + 1] == p[..i] + [t] && p[i := t][i + 1..] == q[i + 1..] && p[i + 1..] == q[i + 1..]
  {
    assert p[i + 1..] == p[i..][1..] && q[i + 1..] == q[i..][1..];
  }

  /** Changing one limb changes the value by the difference at its weight. */
  lemma {:induction false} ValUpdate(b: nat, p: seq<nat>, i: nat, t: nat)
    requires i < |p|
    ensures Val(b, p[i := t]) + Mul(Pow(b, i), p[i]) == Val(b, p) + Mul(Pow(b, i), t)
  {
    hide Val, Pow, Mul;
    var q := p[i := t];
    ValSplit(b, p, i + 1); ValSplit(b, q, i + 1);
    ValPrefix(b, p, i); ValPrefix(b, q, i);
    assert q[..i] == p[..i] && q[i + 1..] == p[i + 1..];
  }

  lemma {:induction false} CarryIn(b: nat, p: seq<nat>, j: nat, c: nat, t: nat, c': nat)
    requires j < |p| && p[j] + c == t + Mul(c', b)
    ensures Val(b, p[j := t]) + Mul(c', Pow(b, j + 1)) == Val(b, p) + Mul(c, Pow(b, j))
  {
    hide Val, Mul;
    ValUpdate(b, p, j, t);
    ScaleAdd(Pow(b, j), b, p[j], 0, c, t, c');
    MulUnit(Pow(b, j));
  }

  /** A carry runs on from limb j, and makes the number longer if it leaves it. */
  method Ripple(b: nat, X: Mpi, j0: nat, c0: nat)
    requires X.Valid(b) && j0 <= |X.p| && c0 <= 1
    modifies X`p
    ensures X.Valid(b) && X.Abs(b) == old(X.Abs(b)) + Mul(c0, Pow(b, j0))
  {
    hide Val, Pow;
    ghost var total := X.Abs(b) + Mul(c0, Pow(b, j0));
    var j: nat, c: nat := j0, c0;
    while c != 0
      invariant X.Valid(b) && j <= |X.p| && c <= 1 && X.Abs(b) + Mul(c, Pow(b, j)) == total
      decreases if c != 0 then |X.p| - j + 1 else 0
    {
      var top := j >= |X.p|;
      if top { Grow(b, X, j + 1); }
      c := CarryLimb(b, X, j, c, top);
      j := j + 1;
    }
    MulUnit(Pow(b, j));
  }

  method CarryLimb(b: nat, X: Mpi, j: nat, c: nat, ghost top: bool) returns (c': nat)
    requires X.Valid(b) && j < |X.p| && c <= 1 && (top ==> X.p[j] == 0)
    modifies X`p
    ensures X.Valid(b) && |X.p| == |old(X.p)| && c' <= 1 && (top ==> c' == 0)
    ensures X.Abs(b) + Mul(c', Pow(b, j + 1)) == old(X.Abs(b)) + Mul(c, Pow(b, j))
  {
    hide Val, Pow;
    var x := X.p[j];
    WrapAdd(b, x, c);
    var t := (x + c) % b;
    c' := Bit(t < c);
    MulIs(c', b);
    CarryIn(b, X.p, j, c, t, c');
    X.p := X.p[j := t];
  }

  /** |A| + |B|. */
  method AddAbs(b: nat, X: Mpi, A: Mpi, B: Mpi)
    requires X.Valid(b) && A.Valid(b) && B.Valid(b)
    modifies X
    ensures X.Valid(b) && X.s == 1 && X.Abs(b) == old(A.Abs(b)) + old(B.Abs(b))
  {
    hide Val, Pow, Mul;
    var A', B' := A, B;
    if X == B {
      A', B' := X, A;
    }
    if X != A' {
      Copy(b, X, A');
    }
    X.s := 1;
    var j := Significant(B'.p);
    ValTrim(b, B'.p, j);
    if j == 0 {
      assert B'.p[..0] == [];
      ValNone(b);
      return;
    }
    AddInto(b, X, B', j);
  }

  /** The lowest j limbs of B added to X. */
  method AddInto(b: nat, X: Mpi, B: Mpi, j: nat)
    requires X.Valid(b) && B.Valid(b) && j <= |B.p|
    modifies X`p
    ensures X.Valid(b) && X.Abs(b) == old(X.Abs(b)) + old(Val(b, B.p[..j]))
  {
    hide Val, Pow, Mul;
    ghost var low := B.p[..j];
    Grow(b, X, j);
    assert B.p[..j] == low;
    ghost var x0 := X.p;
    var c := CoreAdd(b, X, B, j);
    SumAbove(b, x0, X.p, low, j, c);
    Ripple(b, X, j, c);
  }

  lemma {:induction false} SumAbove(b: nat, x0: seq<nat>, x: seq<nat>, low: seq<nat>, j: nat, c: nat)
    requires j <= |x| == |x0| && x[j..] == x0[j..]
    requires Val(b, x[..j]) + Mul(c, Pow(b, j)) == Val(b, x0[..j]) + Val(b, low)
    ensures Val(b, x) + Mul(c, Pow(b, j)) == Val(b, x0) + Val(b, low)
  {
    hide Val, Pow, Mul;
    ValSplit(b, x, j);
    ValSplit(b, x0, j);
  }

  // ----- differences

  /** The lowest n limbs of A - B into X, returning the borrow. */
  method CoreSub(b: nat, X: Mpi, A: Mpi, B: Mpi, n: nat) returns (c: nat)
    requires X.Valid(b) && A.Valid(b) && B.Valid(b) && n <= |X.p| && n <= |A.p| && n <= |B.p|
    modifies X`p
    ensures X.Valid(b) && c <= 1 && |X.p| == |old(X.p)| && X.p[n..] == old(X.p)[n..]
    ensures Val(b, old(A.p)[..n]) + Mul(c, Pow(b, n)) == Val(b, old(B.p)[..n]) + Val(b, X.p[..n])
  {
    hide Val, Pow;
    ghost var x0, a0, b0, diff := X.p, A.p, B.p, [];
    c := 0;
    var i := 0;
    ValNone(b);
    assert a0[..0] == [] && b0[..0] == [];
    MulUnit(Pow(b, 0));
    while i < n
      invariant 0 <= i <= n && c <= 1 && |X.p| == |x0| && |A.p| == |a0| && |B.p| == |b0|
      invariant X.p[..i] == diff && X.p[i..] == x0[i..] && A.p[i..] == a0[i..] && B.p[i..] == b0[i..] && Limbs(b, diff)
      invariant Val(b, a0[..i]) + Mul(c, Pow(b, i)) == Val(b, b0[..i]) + Val(b, diff)
    {
      c, diff := SubOne(b, X, A, B, i, c, x0, a0, b0, diff);
      i := i + 1;
    }
    assert X.p == diff + x0[n..];
  }

  /** One limb of the difference. */
  method SubOne(b: nat, X: Mpi, A: Mpi, B: Mpi, i: nat, c: nat, ghost x0: seq<nat>, ghost a0: seq<nat>,
                ghost b0: seq<nat>,
                ghost diff: seq<nat>)
    returns (c': nat, ghost diff': seq<nat>)
    requires b > 1 && Limbs(b, a0) && Limbs(b, b0) && Limbs(b, diff) && c <= 1
    requires i < |X.p| == |x0| && i < |A.p| == |a0| && i < |B.p| == |b0|
    requires X.p[..i] == diff && X.p[i..] == x0[i..] && A.p[i..] == a0[i..] && B.p[i..] == b0[i..]
    requires Val(b, a0[..i]) + Mul(c, Pow(b, i)) == Val(b, b0[..i]) + Val(b, diff)
    modifies X`p
    ensures c' <= 1 && |X.p| == |x0| && |A.p| == |a0| && |B.p| == |b0| && Limbs(b, diff')
    ensures X.p[..i + 1] == diff' && X.p[i + 1..] == x0[i + 1..] && A.p[i + 1..] == a0[i + 1..]
    ensures B.p[i + 1..] == b0[i + 1..]
    ensures Val(b, a0[..i + 1]) + Mul(c', Pow(b, i + 1)) == Val(b, b0[..i + 1]) + Val(b, diff')
  {
    hide Val, Pow, Mul;
    assert A.p[i] == A.p[i..][0] == a0[i] && B.p[i] == B.p[i..][0] == b0[i];
    var t;
    c', t := SubLimb(b, A.p[i], B.p[i], c);
    SubPrefix(b, a0, b0, diff, i, c, t, c');
    Moved(X.p, x0, i, t);
    Moved(A.p, a0, i, t);
    Moved(B.p, b0, i, t);
    X.p := X.p[i := t];
    diff' := diff + [t];
  }

  /** A borrow taken from the limbs from n on, returning the borrow that is left. */
  method CoreSubInt(b: nat, X: Mpi, n: nat, c0: nat) returns (c: nat)
    requires X.Valid(b) && n <= |X.p| && c0 <= 1
    modifies X`p
    ensures X.Valid(b) && |X.p| == |old(X.p)| && c <= 1
    ensures X.Abs(b) + Mul(c0, Pow(b, n)) == old(X.Abs(b)) + Mul(c, Pow(b, |X.p|))
    ensures X.p[..n] == old(X.p)[..n]
  {
    hide Val, Pow;
    ghost var x0, total := X.p, X.Abs(b);
    c := c0;
    var i := n;
    while i < |X.p|
      invariant n <= i <= |X.p| == |x0| && X.Valid(b) && c <= 1 && X.p[..n] == x0[..n]
      invariant X.Abs(b) + Mul(c0, Pow(b, n)) == total + Mul(c, Pow(b, i))
    {
      c := BorrowLimb(b, X, i, c);
      i := i + 1;
    }
  }

  method BorrowLimb(b: nat, X: Mpi, i: nat, c: nat) returns (c': nat)
    requires X.Valid(b) && i < |X.p| && c <= 1
    modifies X`p
    ensures X.Valid(b) && |X.p| == |old(X.p)| && c' <= 1 && X.p[..i] == old(X.p)[..i]
    ensures X.Abs(b) + Mul(c, Pow(b, i)) == old(X.Abs(b)) + Mul(c', Pow(b, i + 1))
  {
    hide Val, Pow;
    var s := X.p[i];
    WrapSub(b, s, c);
    var t := (s - c) % b;
    c' := Bit(t > s);
    Wrapped(b, s, c, t);
    MulIs(c', b);
    ghost var q := X.p[i := t];
    CarryIn(b, q, i, c, s, c');
    assert q[i := s] == X.p;
    X.p := X.p[i := t];
  }

  lemma {:induction false} Wrapped(b: nat, s: nat, c: nat, t: nat)
    requires s < b && b > 1 && c <= 1 && s + Bit(s < c) * b == c + t && t < b
    ensures t + c == s + Bit(t > s) * b
  {
  }

  /** What the borrow of the low limbs and the one of the high limbs mean for A - B. */
  lemma {:induction false} Difference(b: nat, a: seq<nat>, y: seq<nat>, mid: seq<nat>, n: nat, c: nat)
    requires b > 0 && n <= |a| <= |mid| && n <= |y| && Val(b, mid[n..]) == Val(b, a[n..])
    requires Val(b, a[..n]) + Mul(c, Pow(b, n)) == Val(b, y[..n]) + Val(b, mid[..n])
    requires Val(b, y) == Val(b, y[..n])
    ensures Val(b, a) + Mul(c, Pow(b, n)) == Val(b, y) + Val(b, mid)
  {
    hide Val, Pow, Mul;
    ValSplit(b, a, n);
    ValSplit(b, mid, n);
  }

  /** |A| - |B|, or an error when that is negative. */
  method SubAbs(b: nat, X: Mpi, A: Mpi, B: Mpi) returns (ret: Status)
    requires X.Valid(b) && A.Valid(b) && B.Valid(b)
    modifies X
    ensures X.Valid(b) && ret == if old(A.Abs(b)) >= old(B.Abs(b)) then Fine else Failed(NegativeValue)
    ensures ret == Fine ==> X.s == 1 && X.Abs(b) == old(A.Abs(b)) - old(B.Abs(b))
  {
    hide Val, Pow, Mul;
    ghost var a0, b0 := A.p, B.p;
    var n := Significant(B.p);
    ValTrim(b, B.p, n);
    if n > |A.p| {
      ValTop(b, B.p, n);
      ValBound(b, A.p);
      PowMonotone(b, |A.p|, n - 1);
      return Failed(NegativeValue);
    }
    Prepare(b, X, A, B, n);
    assert A.p[..n] == a0[..n] && B.p[..n] == b0[..n];
    ghost var mid := X.p;
    var carry := CoreSub(b, X, A, B, n);
    Difference(b, a0, b0, X.p, n, carry);
    MulUnit(Pow(b, n));
    if carry != 0 {
      carry := CoreSubInt(b, X, n, carry);
      ValBound(b, X.p);
      MulUnit(Pow(b, |X.p|));
      if carry != 0 {
        return Failed(NegativeValue);
      }
    }
    X.s := 1;
    ret := Fine;
  }

  /** The limbs of A above n, and zeros above those, go into X. */
  method Prepare(b: nat, X: Mpi, A: Mpi, B: Mpi, n: nat)
    requires X.Valid(b) && A.Valid(b) && B.Valid(b) && n <= |A.p| && n <= |B.p|
    modifies X`p
    ensures X.Valid(b) && A.Valid(b) && B.Valid(b) && n <= |A.p| <= |X.p| && n <= |B.p|
    ensures A.p[..n] == old(A.p)[..n] && B.p[..n] == old(B.p)[..n]
    ensures |old(A.p)| <= |X.p| && Val(b, X.p[n..]) == Val(b, old(A.p)[n..])
  {
    hide Val, Limbs;
    ghost var a0 := A.p;
    var an := |A.p|;
    Grow(b, X, an);
    assert A != X ==> A.p == a0;
    assert A == X ==> X.p == a0;
    ghost var g := X.p;
    HighLimbs(b, g, a0, n, A != X);
    if an > n && A != X {
      X.p := X.p[..n] + A.p[n..] + X.p[an..];
    }
    if |X.p| > an {
      X.p := X.p[..an] + Zeros(|X.p| - an);
    }
    ValGrown(b, a0[n..], |X.p| - an);
  }

  /** The limbs that end up in X: its own up to n, then those of a, then zeros. */
  lemma {:induction false} HighLimbs(b: nat, g: seq<nat>, a: seq<nat>, n: nat, other: bool)
    requires b > 0 && Limbs(b, g) && Limbs(b, a) && n <= |a| <= |g| && (!other ==> g == a)
    ensures var h := if |a| > n && other then g[..n] + a[n..] + g[|a|..] else g;
      var r := if |h| > |a| then h[..|a|] + Zeros(|h| - |a|) else h;
      |r| == |g| && r[..n] == g[..n] && r[n..] == a[n..] + Zeros(|g| - |a|) && Limbs(b, r) && Limbs(b, h)
  {
    var h := if |a| > n && other then g[..n] + a[n..] + g[|a|..] else g;
    assert |h| == |g| && h[..n] == g[..n] && h[n..|a|] == a[n..];
  }

  // ----- comparison and signs

  lemma {:induction false} LongerIsMore(b: nat, p: seq<nat>, i: nat, q: seq<nat>, j: nat)
    requires b > 1 && Limbs(b, q) && j < i <= |p| && p[i - 1] != 0 && j <= |q| && Val(b, q) == Val(b, q[..j])
    ensures Val(b, p) > Val(b, q)
  {
    hide Val, Pow;
    ValTop(b, p, i);
    ValBound(b, q[..j]);
    PowMonotone(b, j, i - 1);
  }

  /** -1, 0 or 1 as |X| is less than, equal to or greater than |Y|. */
  method CmpAbs(b: nat, X: Mpi, Y: Mpi) returns (r: int)
    requires X.Valid(b) && Y.Valid(b)
    ensures r == if X.Abs(b) > Y.Abs(b) then 1 else if X.Abs(b) < Y.Abs(b) then -1 else 0
  {
    hide Val, Pow, Mul;
    var i := Significant(X.p);
    var j := Significant(Y.p);
    ValTrim(b, X.p, i);
    ValTrim(b, Y.p, j);
    if i > j { LongerIsMore(b, X.p, i, Y.p, j); return 1; }
    if j > i { LongerIsMore(b, Y.p, j, X.p, i); return -1; }
    r := CmpLimbs(b, X.p[..i], Y.p[..i]);
  }

  method CmpLimbs(b: nat, x: seq<nat>, y: seq<nat>) returns (r: int)
    requires Limbs(b, x) && Limbs(b, y) && |x| == |y|
    ensures r == if Val(b, x) > Val(b, y) then 1 else if Val(b, x) < Val(b, y) then -1 else 0
  {
    hide Val, Mul;
    var i := |x|;
    assert x[i..] == [] && y[i..] == [];
    while i > 0
      invariant 0 <= i <= |x| && x[i..] == y[i..]
    {
      TopDiffers(b, x, y, i - 1);
      if x[i - 1] > y[i - 1] { return 1; }
      if x[i - 1] < y[i - 1] { return -1; }
      i := i - 1;
    }
    assert x[0..] == x && y[0..] == y;
    return 0;
  }

  /** The top limb in which two vectors differ decides. */
  lemma {:induction false} TopDiffers(b: nat, x: seq<nat>, y: seq<nat>, i: nat)
    requires Limbs(b, x) && Limbs(b, y) && i < |x| == |y| && x[i + 1..] == y[i + 1..]
    ensures x[i] > y[i] ==> Val(b, x) > Val(b, y)
    ensures x[i] < y[i] ==> Val(b, x) < Val(b, y)
    ensures x[i] == y[i] ==> x[i..] == y[i..]
  {
    hide Val, Pow, Mul;
    assert x[i..] == [x[i]] + x[i + 1..] && y[i..] == [y[i]] + y[i + 1..];
    ValSplit(b, x, i + 1); ValSplit(b, y, i + 1);
    ValPrefix(b, x, i); ValPrefix(b, y, i);
    ValBound(b, x[..i]); ValBound(b, y[..i]);
    MulLess(Pow(b, i), x[i], y[i]);
    MulLess(Pow(b, i), y[i], x[i]);
  }

  /** A + flip B, where flip is 1 or -1. */
  method AddSub(b: nat, X: Mpi, A: Mpi, B: Mpi, flip: int)
    requires X.Valid(b) && A.Valid(b) && B.Valid(b) && (flip == 1 || flip == -1)
    modifies X
    ensures X.Valid(b) && X.Value(b) == old(A.Value(b)) + (if flip == 1 then old(B.Value(b)) else -old(B.Value(b)))
  {
    hide Val, Limbs;
    var s := A.s;
    if A.s * B.s * flip < 0 {
      var cmp := CmpAbs(b, A, B);
      var ret;
      if cmp >= 0 {
        ret := SubAbs(b, X, A, B);
        X.s := if cmp == 0 then 1 else s;
      } else {
        ret := SubAbs(b, X, B, A);
        X.s := -s;
      }
    } else {
      AddAbs(b, X, A, B);
      X.s := s;
    }
  }

  method AddMpi(b: nat, X: Mpi, A: Mpi, B: Mpi)
    requires X.Valid(b) && A.Valid(b) && B.Valid(b)
    modifies X
    ensures X.Valid(b) && X.Value(b) == old(A.Value(b)) + old(B.Value(b))
  {
    AddSub(b, X, A, B, 1);
  }

  method SubMpi(b: nat, X: Mpi, A: Mpi, B: Mpi)
    requires X.Valid(b) && A.Valid(b) && B.Valid(b)
    modifies X
    ensures X.Valid(b) && X.Value(b) == old(A.Value(b)) - old(B.Value(b))
  {
    AddSub(b, X, A, B, -1);
  }
}
