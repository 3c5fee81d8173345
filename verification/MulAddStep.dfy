/** One multiply-accumulate step on limbs (bn_mul.h), in its double-limb and its
    half-limb form. Limb arithmetic wraps modulo the base b, written out as `% b`. */
module MulAddStep {
  import opened Arith

  function Bit(c: bool): nat { if c then 1 else 0 }

  lemma {:induction false} LimbProduct(b: nat, s: nat, m: nat)
    requires s < b && m < b
    ensures s * m + 2 * (b - 1) < b * b
  {
    MulMonotone(s, m, b - 1);
    MulMonotone(b - 1, s, b - 1);
    assert (b - 1) * (b - 1) == b * b - 2 * b + 1;
  }

  /** A wrapped addition followed by the test "result below the addend" moves the
      carry into the high limb without losing it. */
  lemma {:induction false} CarryStep(b: nat, hi: nat, lo: nat, x: nat)
    requires lo < b && x < b && hi * b + lo + x < b * b
    ensures var lo' := (lo + x) % b;
            var hi' := (hi + Bit(lo' < x)) % b;
            hi' * b + lo' == hi * b + lo + x && hi' < b && lo' < b
  {
    if lo + x < b {
      DivModUnique(lo + x, b, 0, lo + x);
      HighStep(b, hi, lo + x, 0);
    } else {
      DivModUnique(lo + x, b, 1, lo + x - b);
      MulDistrib(b, hi, 1);
      HighStep(b, hi, lo + x - b, 1);
    }
  }

  lemma {:induction false} HighStep(b: nat, hi: nat, lo: nat, q: nat)
    requires b > 0 && (hi + q) * b + lo < b * b
    ensures (hi + q) % b == hi + q
  {
    if hi + q >= b { MulMonotone(b, b, hi + q); }
    DivModUnique(hi + q, b, 0, hi + q);
  }

  /** `r0 += x; r1 += (r0 < x)` */
  method AddCarry(b: nat, hi: nat, lo: nat, x: nat) returns (r1: nat, r0: nat)
    requires lo < b && x < b && Mul(hi, b) + lo + x < Mul(b, b)
    ensures Mul(r1, b) + r0 == Mul(hi, b) + lo + x
    ensures r1 < b && r0 < b
  {
    MulIs(hi, b); MulIs(b, b);
    CarryStep(b, hi, lo, x);
    r0 := (lo + x) % b;
    r1 := (hi + Bit(r0 < x)) % b;
    MulIs(r1, b);
  }

  /** `r1 += q` */
  method AddHigh(b: nat, hi: nat, ghost lo: nat, q: nat) returns (r1: nat)
    requires b > 0 && Mul(hi, b) + Mul(q, b) + lo < Mul(b, b)
    ensures Mul(r1, b) == Mul(hi, b) + Mul(q, b)
  {
    MulAdd(b, hi, q);
    MulIs(hi + q, b); MulIs(b, b);
    HighStep(b, hi, lo, q);
    r1 := (hi + q) % b;
  }

  method MulAddDouble(b: nat, s: nat, m: nat, c: nat, d: nat) returns (c': nat, d': nat)
    requires s < b && m < b && c < b && d < b
    ensures Mul(c', b) + d' == Mul(s, m) + c + d
    ensures c' < b && d' < b
  {
    LimbProduct(b, s, m);
    MulIs(s, m); MulIs(b, b);
    var r1, r0 := SplitDouble(b, s * m);
    MulIs(r1, b);
    r1, r0 := AddCarry(b, r1, r0, c);
    r1, r0 := AddCarry(b, r1, r0, d);
    c', d' := r1, r0;
  }

  /** The two limbs of a double limb. */
  method SplitDouble(b: nat, r: nat) returns (r1: nat, r0: nat)
    requires b > 0 && r < b * b
    ensures r1 * b + r0 == r
    ensures r1 < b && r0 < b
  {
    DivBounds(r, b);
    DivLess(r, b, b);
    r0, r1 := r % b, r / b;
  }

  /** Shifting a limb up by half its width keeps its low half only. */
  lemma {:induction false} ShiftHalf(h: nat, x: nat)
    requires h > 0
    ensures h * h > 0
    ensures (x * h) % (h * h) == x % h * h
    ensures (x * h) % (h * h) / h == x % h
    ensures x % h * h < h * h
  {
    MulStrict(h, 0, h);
    var q, r := x / h, x % h;
    assert x * h == q * (h * h) + r * h by {
      assert x == h * q + r;
      MulDistrib(h, h * q, r);
      MulAssoc(h, h, q);
    }
    MulStrict(h, r, h);
    DivModUnique(x * h, h * h, q, r * h);
    DivMul(r, h);
  }

  lemma {:induction false} HalfProduct(h: nat, x: nat, y: nat)
    requires x < h && y < h
    ensures x * y < h * h && x * y % (h * h) == x * y
  {
    MulMonotone(x, y, h);
    MulStrict(h, x, h);
    DivModUnique(x * y, h * h, 0, x * y);
  }

  /** A product from the four products of its halves. */
  lemma {:induction false} Halves(h: nat, s1: nat, s0: nat, m1: nat, m0: nat)
    ensures (s1 * h + s0) * (m1 * h + m0)
         == s1 * m1 * (h * h) + (s0 * m1) * h + (s1 * m0) * h + s0 * m0
  {
    var m := m1 * h + m0;
    assert (s1 * h + s0) * m == s1 * h * m + s0 * m;
    assert s0 * m == (s0 * m1) * h + s0 * m0 by { MulDistrib(s0, m1 * h, m0); MulAssoc(s0, m1, h); }
    assert s1 * h * m == s1 * m1 * (h * h) + (s1 * m0) * h by {
      MulDistrib(s1 * h, m1 * h, m0);
      assert s1 * h * (m1 * h) == s1 * m1 * (h * h) by {
        MulAssoc(s1, h, m1 * h);
        assert h * (m1 * h) == m1 * (h * h);
        MulAssoc(s1, m1, h * h);
      }
      assert s1 * h * m0 == (s1 * m0) * h;
    }
  }

  /** The cross product x, split into halves, is worth x times h. */
  lemma {:induction false} CrossHalves(h: nat, x: nat)
    requires h > 0
    ensures x / h * (h * h) + x % h * h == x * h
    ensures 0 <= x / h
  {
    DivBounds(x, h);
    assert x * h == (h * (x / h) + x % h) * h;
    MulDistrib(h, h * (x / h), x % h);
    assert h * (h * (x / h)) == x / h * (h * h);
  }

  lemma {:induction false} HighHalf(h: nat, s: nat)
    requires h > 0 && s < h * h
    ensures 0 <= s / h < h && s == s / h * h + s % h
  {
    DivBounds(s, h);
    DivLess(s, h, h);
  }

  /** The halves of a limb: the upper by shifting down, the lower by shifting up and down. */
  method SplitHalves(h: nat, s: nat) returns (s1: nat, s0: nat)
    requires h > 1 && s < h * h
    ensures s == s1 * h + s0 && s1 < h && s0 < h
  {
    ShiftHalf(h, s);
    HighHalf(h, s);
    s0, s1 := s * h % (h * h) / h, s / h;
  }

  /** A product of halves fits in a limb. */
  method MulHalves(h: nat, x: nat, y: nat) returns (r: nat)
    requires h > 1 && x < h && y < h
    ensures r == x * y && r < h * h
  {
    HalfProduct(h, x, y);
    r := x * y % (h * h);
  }

  /** A cross product x contributes its upper half to the high limb and its lower half,
      shifted up, to the low limb. */
  method SplitCross(h: nat, x: nat) returns (q: nat, o: nat)
    requires h > 1
    ensures Mul(q, h * h) + o == Mul(x, h)
    ensures o < h * h
  {
    CrossHalves(h, x);
    ShiftHalf(h, x);
    q, o := x / h, x * h % (h * h);
    MulIs(q, h * h); MulIs(x, h);
  }

  lemma {:induction false} HalvesSum(h: nat, s: nat, m: nat, s1: nat, s0: nat, m1: nat, m0: nat) returns (p: nat)
    requires s == s1 * h + s0 && m == m1 * h + m0
    ensures p == Mul(s, m) == s * m
    ensures p == Mul(s1 * m1, h * h) + Mul(s0 * m1, h) + Mul(s1 * m0, h) + s0 * m0
  {
    p := s * m;
    MulIs(s, m);
    Halves(h, s1, s0, m1, m0);
    MulIs(s1 * m1, h * h); MulIs(s0 * m1, h); MulIs(s1 * m0, h);
  }

  method MulAddHalf(h: nat, s: nat, m: nat, c: nat, d: nat) returns (c': nat, d': nat)
    requires h > 1 && s < h * h && m < h * h && c < h * h && d < h * h
    ensures Mul(c', h * h) + d' == Mul(s, m) + c + d
    ensures c' < h * h && d' < h * h
  {
    var m1, m0 := SplitHalves(h, m);
    var s1, s0 := SplitHalves(h, s);
    ghost var p := HalvesSum(h, s, m, s1, s0, m1, m0);
    LimbProduct(h * h, s, m);
    MulIs(h * h, h * h);
    var rx := MulHalves(h, s0, m1);
    var r0 := MulHalves(h, s0, m0);
    var ry := MulHalves(h, s1, m0);
    var r1 := MulHalves(h, s1, m1);
    var qx, ox := SplitCross(h, rx);
    var qy, oy := SplitCross(h, ry);
    c', d' := MulAddFold(h * h, r1, r0, qx, qy, ox, oy, p, c, d);
  }

  /** The additions of the half-limb step, low limb by low limb with carries. */
  method MulAddFold(b: nat, hi: nat, lo: nat, qx: nat, qy: nat, rx: nat, ry: nat, ghost p: nat, c: nat, d: nat)
    returns (r1: nat, r0: nat)
    requires lo < b && rx < b && ry < b && c < b && d < b
    requires p == Mul(hi, b) + Mul(qx, b) + Mul(qy, b) + lo + rx + ry && p + 2 * (b - 1) < Mul(b, b)
    ensures Mul(r1, b) + r0 == p + c + d
    ensures r1 < b && r0 < b
  {
    r1 := AddHigh(b, hi, lo, qx);
    r1 := AddHigh(b, r1, lo, qy);
    r1, r0 := AddCarry(b, r1, lo, rx);
    r1, r0 := AddCarry(b, r1, r0, ry);
    r1, r0 := AddCarry(b, r1, r0, c);
    r1, r0 := AddCarry(b, r1, r0, d);
  }
}
