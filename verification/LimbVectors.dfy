/** Little-endian limb vectors and the natural number each one stands for. */
module LimbVectors {
  import opened Arith

  /** The number a limb vector stands for: the sum of limb i times b^i. */
  function Val(b: nat, s: seq<nat>): nat
  {
    if s == [] then 0 else s[0] + Mul(b, Val(b, s[1..]))
  }

  /** Every limb is below the base. */
  ghost predicate Limbs(b: nat, s: seq<nat>) {
    forall i :: 0 <= i < |s| ==> s[i] < b
  }

  lemma {:induction false} MulNest(b: nat, x: nat, p: nat, v: nat)
    ensures Mul(b, x + Mul(p, v)) == Mul(b, x) + Mul(Mul(b, p), v)
  {
    MulAdd(b, x, Mul(p, v));
    MulMul(b, p, v);
  }

  lemma {:induction false} ValAppend(b: nat, s: seq<nat>, t: seq<nat>)
    ensures Val(b, s + t) == Val(b, s) + Mul(Pow(b, |s|), Val(b, t))
  {
    if s == [] {
      assert s + t == t;
    } else {
      assert (s + t)[1..] == s[1..] + t;
      ValAppend(b, s[1..], t);
      MulNest(b, Val(b, s[1..]), Pow(b, |s| - 1), Val(b, t));
    }
  }

  lemma {:induction false} ValOne(b: nat, x: nat)
    ensures Val(b, [x]) == x
  {
    MulIs(b, 0);
  }

  /** One more limb at the top of a prefix. */
  lemma {:induction false} ValPrefix(b: nat, s: seq<nat>, i: nat)
    requires i < |s|
    ensures Val(b, s[..i + 1]) == Val(b, s[..i]) + Mul(Pow(b, i), s[i])
  {
    assert s[..i + 1] == s[..i] + [s[i]];
    ValAppend(b, s[..i], [s[i]]);
    ValOne(b, s[i]);
  }

  lemma {:induction false} ValSplit(b: nat, s: seq<nat>, i: nat)
    requires i <= |s|
    ensures Val(b, s) == Val(b, s[..i]) + Mul(Pow(b, i), Val(b, s[i..]))
  {
    assert s == s[..i] + s[i..];
    ValAppend(b, s[..i], s[i..]);
  }

  lemma {:induction false} LimbsAppend(b: nat, s: seq<nat>, t: seq<nat>)
    ensures Limbs(b, s + t) <==> Limbs(b, s) && Limbs(b, t)
  {
    assert (s + t)[..|s|] == s && (s + t)[|s|..] == t;
  }

  lemma {:induction false} ValBound(b: nat, s: seq<nat>)
    requires Limbs(b, s)
    ensures Val(b, s) < Pow(b, |s|)
  {
    if s != [] {
      ValBound(b, s[1..]);
      MulLess(b, Val(b, s[1..]), Pow(b, |s| - 1));
    }
  }

  lemma {:induction false} ValZeros(b: nat, s: seq<nat>)
    requires forall i :: 0 <= i < |s| ==> s[i] == 0
    ensures Val(b, s) == 0
  {
    if s != [] {
      ValZeros(b, s[1..]);
      MulIs(b, 0);
    }
  }

  /** Equal-length vectors of limbs with one value are one vector. */
  lemma {:induction false} ValInjective(b: nat, s: seq<nat>, t: seq<nat>)
    requires Limbs(b, s) && Limbs(b, t) && |s| == |t| && Val(b, s) == Val(b, t)
    ensures s == t
  {
    if s != [] {
      var p, q := Val(b, s[1..]), Val(b, t[1..]);
      MulIs(b, p);
      MulIs(b, q);
      DivModUnique(Val(b, s), b, p, s[0]);
      DivModUnique(Val(b, s), b, q, t[0]);
      ValInjective(b, s[1..], t[1..]);
      assert s == [s[0]] + s[1..] && t == [t[0]] + t[1..];
    }
  }

  /** The lowest limb is the value modulo the base. */
  lemma {:induction false} ValLow(b: nat, s: seq<nat>)
    requires |s| > 0 && b > 0
    ensures Val(b, s) == s[0] + b * Val(b, s[1..])
    ensures Cong(Val(b, s), s[0], b)
    ensures s[0] < b ==> Val(b, s) % b == s[0] && Val(b, s) / b == Val(b, s[1..])
  {
    MulIs(b, Val(b, s[1..]));
    CongIntro(Val(b, s), s[0], b, Val(b, s[1..]));
    if s[0] < b {
      DivModUnique(Val(b, s), b, Val(b, s[1..]), s[0]);
    }
  }

  /** The limbs of v in base b, padded with zeros to length n. */
  function ToLimbs(b: nat, v: nat, n: nat): (s: seq<nat>)
    requires b > 1
    ensures |s| == n
  {
    if n == 0 then [] else
    DivBounds(v, b);
    [v % b] + ToLimbs(b, v / b, n - 1)
  }

  lemma {:induction false} ToLimbsValue(b: nat, v: nat, n: nat)
    requires b > 1
    ensures Limbs(b, ToLimbs(b, v, n))
    ensures v < Pow(b, n) ==> Val(b, ToLimbs(b, v, n)) == v
  {
    if n != 0 {
      DivBounds(v, b);
      DivLess(v, b, Pow(b, n - 1));
      PowStep(b, n - 1);
      MulIs(b, v / b);
      ToLimbsValue(b, v / b, n - 1);
      assert ToLimbs(b, v, n)[1..] == ToLimbs(b, v / b, n - 1);
    }
  }
}
